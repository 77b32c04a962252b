/** The message `check_updates` returns: the non-zero counts
    "N ajoute(s)", "N retire(s)", "N modifie(s)" in that order joined by
    " | ", followed by " | " and the sync message when a sync ran and
    succeeded, or "Aucun changement detecte" when nothing changed. */
module Summary {
  import opened Text
  import opened Wrappers

  const NoChangeMessage: string := "Aucun changement detecte"
  const NotConfiguredMessage: string := "Dossier Minecraft non configure"
  const Separator: string := " | "
  const AddedWord: string := " ajoute(s)"
  const RemovedWord: string := " retire(s)"
  const ModifiedWord: string := " modifie(s)"
  const SyncedWord: string := " mod(s) synchronise(s)"

  /** `f"{copied} mod(s) synchronise(s)"`, the message of a successful sync. */
  function SyncMessage(copied: nat): string
  {
    Part(copied, SyncedWord)
  }

  /** One count with its word, as in `f"{len(added_mods)} ajoute(s)"`. */
  function Part(n: nat, word: string): string
  {
    NatToString(n) + word
  }

  /** The list `changes`: one part per non-zero count, in the fixed order. */
  function ChangeParts(added: nat, removed: nat, modified: nat): seq<string>
  {
    (if added > 0 then [Part(added, AddedWord)] else [])
    + (if removed > 0 then [Part(removed, RemovedWord)] else [])
    + (if modified > 0 then [Part(modified, ModifiedWord)] else [])
  }

  /** The message; `syncMessage` is "" or " | " followed by the sync's own
      message. */
  function SummaryMessage(added: nat, removed: nat, modified: nat, syncMessage: string): string
  {
    var changes := ChangeParts(added, removed, modified);
    if changes != [] then Join(changes, Separator) + syncMessage else NoChangeMessage
  }

  /** `sync_message` as `check_updates` builds it from the sync outcome
      (`None` when no sync ran or it failed, the copy count otherwise). */
  function SyncSuffix(synced: Option<nat>): string
  {
    match synced
    case None => ""
    case Some(copied) => Separator + SyncMessage(copied)
  }

  /** The message is the no-change text exactly when all three counts are
      zero, whatever the sync outcome. */
  lemma NoChangeIff(added: nat, removed: nat, modified: nat, syncMessage: string)
    ensures SummaryMessage(added, removed, modified, syncMessage) == NoChangeMessage
        <==> added == 0 && removed == 0 && modified == 0
  {
    var changes := ChangeParts(added, removed, modified);
    if changes != [] {
      var first := if added > 0 then added else if removed > 0 then removed else modified;
      NatToStringDigits(first);
      assert changes[0][0] == NatToString(first)[0];
      JoinStartsWithFirst(changes, Separator);
      var msg := SummaryMessage(added, removed, modified, syncMessage);
      assert msg[0] == changes[0][0];
      assert NoChangeMessage[0] == 'A';
    }
  }

  // ---- Reading a message back ----

  /** What a message reports: the three counts and, when a sync message is
      attached, the number of mods it copied. */
  datatype Report = Report(added: nat, removed: nat, modified: nat, synced: Option<nat>)

  predicate StartsWith(s: string, prefix: string)
  {
    |prefix| <= |s| && s[..|prefix|] == prefix
  }

  /** The length of the run of digits at the start of `s`. */
  function DigitPrefixLen(s: string): (k: nat)
    ensures k <= |s|
    ensures forall i | 0 <= i < k :: IsDigit(s[i])
  {
    if s == [] || !IsDigit(s[0]) then 0 else 1 + DigitPrefixLen(s[1..])
  }

  /** Reads "<digits><word>" at the start of `s`, giving the number and what
      follows the word. */
  function ParseCount(s: string, word: string): Option<(nat, string)>
  {
    var k := DigitPrefixLen(s);
    if k > 0 && StartsWith(s[k..], word) then Some((DigitsValue(s[..k]), s[k + |word|..])) else None
  }

  /** The separator in front of a part: none before the first one. */
  function Sep(first: bool): string
  {
    if first then "" else Separator
  }

  /** Reads the part for `word` if it comes next, returning its count (0 when
      absent), the remaining text and whether no part has been read yet. */
  function Next(s: string, word: string, first: bool): (nat, string, bool)
  {
    if !first && !StartsWith(s, Separator) then (0, s, first)
    else
      var t := if first then s else s[|Separator|..];
      match ParseCount(t, word)
      case Some(p) => (p.0, p.1, false)
      case None => (0, s, first)
  }

  /** Reads a message back into the counts it reports. */
  function Decode(msg: string): Option<Report>
  {
    if msg == NoChangeMessage then Some(Report(0, 0, 0, None))
    else
      var r1 := Next(msg, AddedWord, true);
      var r2 := Next(r1.1, RemovedWord, r1.2);
      var r3 := Next(r2.1, ModifiedWord, r2.2);
      if r3.2 then None
      else if r3.1 == [] then Some(Report(r1.0, r2.0, r3.0, None))
      else if StartsWith(r3.1, Separator) then
        match ParseCount(r3.1[|Separator|..], SyncedWord)
        case Some(p) => if p.1 == [] then Some(Report(r1.0, r2.0, r3.0, Some(p.0))) else None
        case None => None
      else None
  }

  /** The report a message built from these counts and this sync outcome
      carries: the sync count is attached only when something changed. */
  function Expected(added: nat, removed: nat, modified: nat, synced: Option<nat>): Report
  {
    if added == 0 && removed == 0 && modified == 0 then Report(0, 0, 0, None)
    else Report(added, removed, modified, synced)
  }

  /** The message loses nothing: the counts, and the sync count when it was
      appended, can be read back from it. In particular the sync message
      appears only when something changed and the sync succeeded. */
  lemma SummaryRoundTrip(added: nat, removed: nat, modified: nat, synced: Option<nat>)
    ensures Decode(SummaryMessage(added, removed, modified, SyncSuffix(synced)))
         == Some(Expected(added, removed, modified, synced))
  {
    if added == 0 && removed == 0 && modified == 0 {
      return;
    }
    var suffix := SyncSuffix(synced);
    var msg := SummaryMessage(added, removed, modified, suffix);
    var tm := Opt(modified, ModifiedWord, added == 0 && removed == 0) + suffix;
    var tr := Opt(removed, RemovedWord, added == 0) + tm;
    MessageShape(added, removed, modified, suffix);
    assert msg == Opt(added, AddedWord, true) + tr;
    NoChangeIff(added, removed, modified, suffix);
    StepModified(added, removed, modified, synced);
    StepRemoved(added, removed, modified, synced);
    StepAdded(added, removed, modified, synced);
    DecodeFromSteps(msg, added, removed, modified, tr, tm, synced);
  }

  /** Decoding a message whose three parts have been read. */
  lemma DecodeFromSteps(msg: string, added: nat, removed: nat, modified: nat, tr: string, tm: string, synced: Option<nat>)
    requires msg != NoChangeMessage
    requires !(added == 0 && removed == 0 && modified == 0)
    requires Next(msg, AddedWord, true) == (added, tr, added == 0)
    requires Next(tr, RemovedWord, added == 0) == (removed, tm, added == 0 && removed == 0)
    requires Next(tm, ModifiedWord, added == 0 && removed == 0) == (modified, SyncSuffix(synced), false)
    ensures Decode(msg) == Some(Report(added, removed, modified, synced))
  {
    if synced.Some? {
      SyncTail(synced.value);
    }
  }

  /** The sync suffix reads back as the sync count, with nothing after it. */
  lemma SyncTail(copied: nat)
    ensures StartsWith(SyncSuffix(Some(copied)), Separator)
    ensures ParseCount(SyncSuffix(Some(copied))[|Separator|..], SyncedWord) == Some((copied, ""))
  {
    var suffix := SyncSuffix(Some(copied));
    assert suffix == Separator + (Part(copied, SyncedWord) + "");
    ParseCountOf(copied, SyncedWord, "");
    assert suffix[..|Separator|] == Separator;
    assert suffix[|Separator|..] == NatToString(copied) + SyncedWord + "";
  }

  lemma StepModified(added: nat, removed: nat, modified: nat, synced: Option<nat>)
    requires !(added == 0 && removed == 0 && modified == 0)
    ensures var f := added == 0 && removed == 0;
      Next(Opt(modified, ModifiedWord, f) + SyncSuffix(synced), ModifiedWord, f)
        == (modified, SyncSuffix(synced), false)
  {
    SuffixBlocks(synced, ModifiedWord, 4);
    NextOnOpt(modified, ModifiedWord, added == 0 && removed == 0, SyncSuffix(synced));
  }

  lemma StepRemoved(added: nat, removed: nat, modified: nat, synced: Option<nat>)
    requires !(added == 0 && removed == 0 && modified == 0)
    ensures var tm := Opt(modified, ModifiedWord, added == 0 && removed == 0) + SyncSuffix(synced);
      Next(Opt(removed, RemovedWord, added == 0) + tm, RemovedWord, added == 0)
        == (removed, tm, added == 0 && removed == 0)
  {
    var suffix := SyncSuffix(synced);
    var tm := Opt(modified, ModifiedWord, added == 0 && removed == 0) + suffix;
    if removed == 0 {
      if modified > 0 {
        SegBlocks(modified, ModifiedWord, RemovedWord, added == 0, suffix, 1);
      } else {
        assert tm == suffix;
        SuffixBlocks(synced, RemovedWord, 1);
      }
    }
    NextOnOpt(removed, RemovedWord, added == 0, tm);
  }

  lemma StepAdded(added: nat, removed: nat, modified: nat, synced: Option<nat>)
    requires !(added == 0 && removed == 0 && modified == 0)
    ensures var tm := Opt(modified, ModifiedWord, added == 0 && removed == 0) + SyncSuffix(synced);
      var tr := Opt(removed, RemovedWord, added == 0) + tm;
      Next(Opt(added, AddedWord, true) + tr, AddedWord, true) == (added, tr, added == 0)
  {
    var suffix := SyncSuffix(synced);
    var tm := Opt(modified, ModifiedWord, added == 0 && removed == 0) + suffix;
    var tr := Opt(removed, RemovedWord, added == 0) + tm;
    if added == 0 {
      if removed > 0 {
        SegBlocks(removed, RemovedWord, AddedWord, true, tm, 1);
      } else {
        assert tr == tm;
        assert modified > 0;
        SegBlocks(modified, ModifiedWord, AddedWord, true, suffix, 1);
      }
    }
    NextOnOpt(added, AddedWord, true, tr);
  }

  /** A part with its leading separator. */
  function Seg(n: nat, word: string, first: bool): string
  {
    Sep(first) + Part(n, word)
  }

  /** The part for a count, absent when the count is zero. */
  function Opt(n: nat, word: string, first: bool): string
  {
    if n == 0 then "" else Seg(n, word, first)
  }

  /** The joined message, written part by part. */
  lemma MessageShape(added: nat, removed: nat, modified: nat, suffix: string)
    requires !(added == 0 && removed == 0 && modified == 0)
    ensures SummaryMessage(added, removed, modified, suffix)
         == Opt(added, AddedWord, true)
          + (Opt(removed, RemovedWord, added == 0)
          + (Opt(modified, ModifiedWord, added == 0 && removed == 0) + suffix))
  {
    JoinParts(added, removed, modified);
    var a := Opt(added, AddedWord, true);
    var r := Opt(removed, RemovedWord, added == 0);
    var m := Opt(modified, ModifiedWord, added == 0 && removed == 0);
    assert SummaryMessage(added, removed, modified, suffix) == (a + r + m) + suffix;
    assert (a + r + m) + suffix == a + (r + (m + suffix));
  }

  lemma JoinParts(added: nat, removed: nat, modified: nat)
    ensures Join(ChangeParts(added, removed, modified), Separator)
         == Opt(added, AddedWord, true)
          + Opt(removed, RemovedWord, added == 0)
          + Opt(modified, ModifiedWord, added == 0 && removed == 0)
  {
    var a := Part(added, AddedWord);
    var r := Part(removed, RemovedWord);
    var m := Part(modified, ModifiedWord);
    var parts := ChangeParts(added, removed, modified);
    if added > 0 && removed > 0 && modified > 0 {
      assert parts == [a, r, m];
      JoinThree(a, r, m);
    } else if added > 0 && removed > 0 {
      assert parts == [a, r];
      JoinTwo(a, r);
    } else if added > 0 && modified > 0 {
      assert parts == [a, m];
      JoinTwo(a, m);
    } else if removed > 0 && modified > 0 {
      assert parts == [r, m];
      JoinTwo(r, m);
    } else if added > 0 {
      assert parts == [a];
    } else if removed > 0 {
      assert parts == [r];
    } else if modified > 0 {
      assert parts == [m];
    }
  }

  lemma JoinTwo(x: string, y: string)
    ensures Join([x, y], Separator) == "" + x + (Separator + y)
  {
    assert [x, y][1..] == [y];
  }

  lemma JoinThree(x: string, y: string, z: string)
    ensures Join([x, y, z], Separator) == "" + x + (Separator + y) + (Separator + z)
  {
    assert [x, y, z][1..] == [y, z];
    JoinTwo(y, z);
  }

  lemma {:induction false} DigitPrefixOf(d: string, t: string)
    requires forall i | 0 <= i < |d| :: IsDigit(d[i])
    requires t == [] || !IsDigit(t[0])
    ensures DigitPrefixLen(d + t) == |d|
  {
    if d != [] {
      assert (d + t)[1..] == d[1..] + t;
      DigitPrefixOf(d[1..], t);
    } else {
      assert d + t == t;
    }
  }

  /** A rendered count followed by its word reads back as that count. */
  lemma ParseCountOf(n: nat, word: string, tail: string)
    requires |word| > 0 && !IsDigit(word[0])
    ensures ParseCount(NatToString(n) + word + tail, word) == Some((n, tail))
  {
    var d := NatToString(n);
    var s := d + word + tail;
    NatToStringRoundTrip(n);
    NatToStringDigits(n);
    assert s == d + (word + tail);
    DigitPrefixOf(d, word + tail);
    assert s[..|d|] == d;
    assert s[|d|..] == word + tail;
    assert (word + tail)[..|word|] == word;
    assert s[|d| + |word|..] == tail;
  }

  /** A rendered count followed by a different word does not read as `word`. */
  lemma ParseCountMismatch(n: nat, other: string, word: string, tail: string, i: nat)
    requires |other| > 0 && !IsDigit(other[0])
    requires i < |other| && i < |word| && other[i] != word[i]
    ensures ParseCount(NatToString(n) + other + tail, word) == None
  {
    var d := NatToString(n);
    var s := d + other + tail;
    NatToStringDigits(n);
    assert s == d + (other + tail);
    DigitPrefixOf(d, other + tail);
    assert s[|d|..] == other + tail;
    assert s[|d|..][i] == other[i];
  }

  /** Reading the next part when it is present, or when the text that follows
      does not start with it. */
  lemma NextOnOpt(n: nat, word: string, first: bool, tail: string)
    requires |word| > 0 && !IsDigit(word[0])
    requires n == 0 ==> Next(tail, word, first) == (0, tail, first)
    ensures Next(Opt(n, word, first) + tail, word, first) == (n, tail, first && n == 0)
  {
    if n > 0 {
      NextTakes(n, word, first, tail);
    } else {
      assert Opt(n, word, first) + tail == tail;
    }
  }

  lemma NextTakes(n: nat, word: string, first: bool, tail: string)
    requires |word| > 0 && !IsDigit(word[0])
    ensures Next(Seg(n, word, first) + tail, word, first) == (n, tail, false)
  {
    var x := NatToString(n) + word + tail;
    ParseCountOf(n, word, tail);
    if !first {
      var s := Separator + x;
      assert Seg(n, word, first) + tail == s;
      assert s[..|Separator|] == Separator;
      assert s[|Separator|..] == x;
    } else {
      assert Seg(n, word, first) + tail == x;
    }
  }

  /** A part for a different word does not read as `word`. */
  lemma SegBlocks(k: nat, other: string, word: string, first: bool, tail: string, i: nat)
    requires |other| > 0 && !IsDigit(other[0])
    requires i < |other| && i < |word| && other[i] != word[i]
    ensures Next(Seg(k, other, first) + tail, word, first) == (0, Seg(k, other, first) + tail, first)
  {
    var s := Seg(k, other, first) + tail;
    ParseCountMismatch(k, other, word, tail, i);
    if !first {
      assert s == Separator + (NatToString(k) + other + tail);
      assert s[|Separator|..] == NatToString(k) + other + tail;
    } else {
      assert s == NatToString(k) + other + tail;
    }
  }

  /** The sync suffix, or the end of the message, reads as no part. */
  lemma SuffixBlocks(synced: Option<nat>, word: string, i: nat)
    requires i < |word| && i < |SyncedWord| && SyncedWord[i] != word[i]
    ensures Next(SyncSuffix(synced), word, false) == (0, SyncSuffix(synced), false)
  {
    match synced
    case None =>
    case Some(c) =>
      assert SyncSuffix(synced) == Seg(c, SyncedWord, false) + "";
      SegBlocks(c, SyncedWord, word, false, "", i);
  }
}
