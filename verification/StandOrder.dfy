/** What the verdict on a law says of its gazette issues and its open refs, read off their fields: a
    reference definition of "newer than the Stand" that shares nothing with the citation order, and the
    verdict stated with it. */
module StandOrder {
  import opened Domain
  import opened Freshness
  import Citation
  import Text

  // ---------- the number of an issue ----------

  /** The first k characters of s are its leading digits. */
  predicate LeadingDigits(s: string, k: nat) {
    && k <= |s| && (forall i :: 0 <= i < k ==> Text.IsDigit(s[i]))
    && (k < |s| ==> !Text.IsDigit(s[k]))
  }

  function DigitCount(s: string): (k: nat)
    ensures LeadingDigits(s, k)
  {
    if s == [] || !Text.IsDigit(s[0]) then 0
    else
      var k := DigitCount(s[1..]);
      assert forall i :: 0 < i < |s| ==> s[i] == s[1..][i - 1];
      k + 1
  }

  /** The decimal value of the leading digits. */
  function NumberOf(s: string): nat {
    assert LeadingDigits(s, DigitCount(s));
    Text.DecimalValue(s[..DigitCount(s)])
  }

  /** Adding a multiple of 2^64 does not change what is left after wrapping. */
  lemma WrapShift(n: int, q: int)
    ensures Wrap64(n + q * 0x1_0000_0000_0000_0000) == Wrap64(n)
  {
    var m := 0x1_0000_0000_0000_0000;
    var x := n + 0x8000_0000_0000_0000;
    assert x == x / m * m + x % m;
    assert x + q * m == (x / m + q) * m + x % m;
    assert (x + q * m) % m == x % m;
  }

  /** Wrapping at every digit is wrapping once at the end. */
  lemma WrapStep(acc: int, digit: int)
    ensures Wrap64(Wrap64(acc) * 10 + digit) == Wrap64(acc * 10 + digit)
  {
    var m := 0x1_0000_0000_0000_0000;
    var q := (acc + 0x8000_0000_0000_0000) / m;
    assert Wrap64(acc) == acc - q * m;
    assert Wrap64(acc) * 10 + digit == acc * 10 + digit + (-10 * q) * m;
    WrapShift(acc * 10 + digit, -10 * q);
  }

  lemma DecimalSnoc(s: string, j: nat)
    requires j < |s| && forall i :: 0 <= i <= j ==> Text.IsDigit(s[i])
    ensures Text.DecimalValue(s[..j + 1]) == 10 * Text.DecimalValue(s[..j]) + (s[j] as int - '0' as int)
  {
    assert s[..j + 1][..j] == s[..j];
  }

  lemma {:induction false} LeadingFrom(s: string, j: nat, k: nat)
    requires LeadingDigits(s, k) && j <= k
    ensures Citation.LeadingValue(s[j..], Wrap64(Text.DecimalValue(s[..j]))) == Wrap64(Text.DecimalValue(s[..k]))
    decreases k - j
  {
    if j < k {
      DecimalSnoc(s, j);
      WrapStep(Text.DecimalValue(s[..j]), s[j] as int - '0' as int);
      assert s[j..][1..] == s[j + 1..];
      LeadingFrom(s, j + 1, k);
    }
  }

  /** The citation order reads a number as the decimal value of its leading digits, wrapped once. */
  lemma NumberRead(s: string)
    ensures Citation.LeadingValue(s, 0) == Wrap64(NumberOf(s))
  {
    LeadingFrom(s, 0, DigitCount(s));
    assert s[0..] == s && s[..0] == [];
  }

  lemma {:induction false} DecimalBound(s: string)
    requires forall i :: 0 <= i < |s| ==> Text.IsDigit(s[i])
    ensures Text.DecimalValue(s) < Citation.Pow10(|s|)
  {
    if s != [] { DecimalBound(s[..|s| - 1]); }
  }

  /** Up to 18 digits nothing wraps. */
  lemma ShortNumberRead(s: string)
    requires DigitCount(s) <= 18
    ensures Citation.LeadingValue(s, 0) == NumberOf(s)
  {
    NumberRead(s);
    DecimalBound(s[..DigitCount(s)]);
    Citation.Pow10Fits(DigitCount(s));
    assert Citation.Pow10(6) == 1_000_000;
    assert Citation.Pow10(12) == 1_000_000_000_000;
    assert Citation.Pow10(18) == 1_000_000_000_000_000_000;
  }

  /** Citations of one Teil and year without usable numbers are ordered by their pages. */
  lemma PagesDecide(a: StandCitation, b: StandCitation)
    requires a.teil == b.teil != 0 && a.year == b.year != 0 && (a.number == "" || b.number == "")
    requires a.page != "" && b.page != "" && Citation.AllDigits(a.page) && Citation.AllDigits(b.page)
    requires Text.DecimalValue(a.page) <= MAX_DURATION && Text.DecimalValue(b.page) <= MAX_DURATION
    ensures Citation.Compare(a, b).ok
    ensures Citation.Compare(a, b).cmp < 0 <==> Text.DecimalValue(a.page) < Text.DecimalValue(b.page)
    ensures Citation.Compare(a, b).cmp == 0 <==> Text.DecimalValue(a.page) == Text.DecimalValue(b.page)
  {
    assert Text.IsDigit(a.page[0]) && Text.IsDigit(b.page[0]);
  }

  // ---------- newer than the Stand ----------

  predicate OneTeil(iss: GazetteIssue, stand: StandCitation) {
    iss.teil == stand.teil != 0 && iss.year != 0 && stand.year != 0
  }

  predicate LaterNumber(iss: GazetteIssue, stand: StandCitation) {
    Wrap64(NumberOf(iss.number)) > Wrap64(NumberOf(stand.number))
  }

  predicate BothNumbered(iss: GazetteIssue, stand: StandCitation) {
    Wrap64(NumberOf(iss.number)) > 0 && Wrap64(NumberOf(stand.number)) > 0
  }

  /** The issue is newer: by year within its Teil, by number within the year, else by the dates. Against
      a Stand that could not be parsed any issue with a year and a number is taken to be newer. */
  predicate Newer(iss: GazetteIssue, stand: StandCitation) {
    if !stand.parseOK then iss.year > 0 && iss.number != ""
    else if OneTeil(iss, stand) && iss.year != stand.year then iss.year > stand.year
    else if OneTeil(iss, stand) && BothNumbered(iss, stand) then LaterNumber(iss, stand)
    else DatedAfter(iss, stand)
  }

  lemma NewerMeaning(iss: GazetteIssue, stand: StandCitation)
    ensures IssueNewerThanStand(iss, stand) <==> Newer(iss, stand)
  {
    NumberRead(iss.number);
    NumberRead(stand.number);
  }

  // ---------- which issues count ----------

  /** Cited as a law, an ordinance, or a notice on a section. */
  predicate CitedAs(ref: InstrumentRef, iss: GazetteIssue) {
    && ref.year == iss.year && ref.number == iss.number && (ref.teil == iss.teil || ref.teil == 0 || iss.teil == 0)
    && (KindOf(ref) in {"G", "V"} || (KindOf(ref) == "BEK" && Text.TrimSpace(ref.sectionHint) != ""))
  }

  /** The evaluation looks at the issue: linked and not a bare notice, or cited in a way that counts. */
  ghost predicate LookedAt(inp: Input, iss: GazetteIssue) {
    && iss.id != ""
    && ((iss in inp.linkedIssues && !IsBareBekanntmachungIssue(iss))
        || (iss in inp.instrumentIssues && exists ref :: ref in inp.instrumentRefs && CitedAs(ref, iss)))
  }

  lemma CountedMeaning(inp: Input, iss: GazetteIssue)
    ensures CountedNewer(inp, iss) <==> LookedAt(inp, iss) && Newer(iss, inp.stand)
  {
    NewerMeaning(iss, inp.stand);
    if InstrumentIssueIsStaleRelevant(iss, inp.instrumentRefs) {
      var i :| 0 <= i < |inp.instrumentRefs| && IssueMatchesRef(iss, inp.instrumentRefs[i]) && IsStaleRelevantRef(inp.instrumentRefs[i]);
      assert CitedAs(inp.instrumentRefs[i], iss);
    }
    if ref :| ref in inp.instrumentRefs && CitedAs(ref, iss) {
      var i :| 0 <= i < |inp.instrumentRefs| && inp.instrumentRefs[i] == ref;
      assert IssueMatchesRef(iss, inp.instrumentRefs[i]) && IsStaleRelevantRef(inp.instrumentRefs[i]);
    }
  }

  /** A word begins the title, in any letter case and after any spaces. */
  predicate Begins(title: string, word: string) {
    var t := Text.TrimSpace(title);
    |t| >= |word| && Text.EqualFold(t[..|word|], word)
  }

  /** Letters that only their upper case and themselves fold to. */
  predicate PlainLetter(c: char) { ('a' <= c <= 'z' && c != 's' && c != 'i') || c == '.' || c == ' ' }

  lemma FoldIsLower(c: char, w: char)
    requires PlainLetter(w)
    ensures Text.LowerChar(c) == w <==> Text.FoldChar(c) == Text.FoldChar(w)
  {
  }

  lemma BeginsLower(title: string, word: string)
    requires forall i :: 0 <= i < |word| ==> PlainLetter(word[i])
    ensures Text.HasPrefix(Text.Lower(Text.TrimSpace(title)), word) <==> Begins(title, word)
  {
    var t := Text.TrimSpace(title);
    var lower := Text.Lower(t);
    if |t| >= |word| {
      forall i | 0 <= i < |word| ensures lower[i] == word[i] <==> Text.FoldChar(t[..|word|][i]) == Text.FoldChar(word[i]) {
        FoldIsLower(t[i], word[i]);
      }
      assert Text.HasPrefix(lower, word) <==> lower[..|word|] == word;
      if Begins(title, word) { assert lower[..|word|] == word; }
      if lower[..|word|] == word { assert forall i :: 0 <= i < |word| ==> lower[..|word|][i] == word[i] == lower[i]; }
    }
  }

  /** A bare notice is told by the first word of its title. */
  lemma BareNotice(iss: GazetteIssue)
    ensures IsBareBekanntmachungIssue(iss) <==>
            Begins(iss.title, "bekanntmachung") || Begins(iss.title, "bek.") || Begins(iss.title, "bek ")
  {
    BeginsLower(iss.title, "bekanntmachung");
    BeginsLower(iss.title, "bek.");
    BeginsLower(iss.title, "bek ");
  }

  // ---------- fresh sync ----------

  /** Stamped, no more than five minutes ahead of now, and no older than the maximum age; a maximum of
      zero or less means six hours, and the longest duration there is means any age. */
  predicate Recent(t: Time, now: Time, maxAge: int) {
    && 0 < t <= now + 300_000_000_000
    && (now - t <= (if maxAge <= 0 then 21_600_000_000_000 else maxAge) || maxAge == MAX_DURATION)
  }

  predicate AllRead(inp: Input, now: Time) {
    && Recent(inp.lastTOCSuccess, now, inp.maxAge) && Recent(inp.lastGIIFeedSuccess, now, inp.maxAge)
    && Recent(inp.lastBGBlSuccess, now, inp.maxAge) && !inp.bgblFromProbeOnly && !inp.linksReadFailed
  }

  lemma UsableMeaning(inp: Input, now: Time)
    requires inp.maxAge <= MAX_DURATION
    ensures SyncUsable(inp, now) <==> AllRead(inp, now)
  {
  }

  /** Feed evidence counts while it is recent; else the probe's, if that is recent and later; else none. */
  lemma EvidenceUsed(bgbl: Time, eli: Time, now: Time, maxAge: int)
    requires maxAge <= MAX_DURATION
    ensures BGBLEvidence(bgbl, eli, now, maxAge) ==
            if Recent(bgbl, now, maxAge) then Evidence(bgbl, false)
            else if Recent(eli, now, maxAge) && eli > bgbl then Evidence(eli, true)
            else Evidence(0, false)
  {
  }

  // ---------- the verdict ----------

  /** A law is stale exactly when sync is fresh and complete and some issue looked at is newer than its
      Stand; the ids reported are exactly those of such issues. */
  lemma StaleIff(inp: Input, now: Time)
    requires inp.maxAge <= MAX_DURATION
    ensures Verdict(inp, now).state == ConfirmedStale <==>
      AllRead(inp, now) && exists iss :: LookedAt(inp, iss) && Newer(iss, inp.stand)
    ensures Verdict(inp, now).state == ConfirmedStale ==> forall id ::
      id in Verdict(inp, now).newerIssueIDs <==> exists iss: GazetteIssue :: iss.id == id && LookedAt(inp, iss) && Newer(iss, inp.stand)
  {
    VerdictExact(inp, now);
    NewerIDsExact(inp);
    UsableMeaning(inp, now);
    forall iss { CountedMeaning(inp, iss); }
  }

  /** Same Teil and a later year, or the same year and a greater number. */
  predicate ComesAfter(iss: GazetteIssue, stand: StandCitation) {
    && OneTeil(iss, stand)
    && (iss.year > stand.year ||
        (iss.year == stand.year && DigitCount(iss.number) <= 18 && NumberOf(iss.number) > NumberOf(stand.number) > 0))
  }

  /** Same Teil and an earlier year, or the same year and a number that is not greater. */
  predicate ComesNotAfter(iss: GazetteIssue, stand: StandCitation) {
    && OneTeil(iss, stand)
    && (iss.year < stand.year ||
        (iss.year == stand.year && DigitCount(stand.number) <= 18 && 0 < NumberOf(iss.number) <= NumberOf(stand.number)))
  }

  lemma ShortFits(s: string)
    requires DigitCount(s) <= 18
    ensures NumberOf(s) <= MAX_DURATION
  {
    ShortNumberRead(s);
    NumberRead(s);
  }

  lemma PlaceDecides(iss: GazetteIssue, stand: StandCitation)
    requires stand.parseOK
    ensures ComesAfter(iss, stand) ==> Newer(iss, stand)
    ensures ComesNotAfter(iss, stand) ==> !Newer(iss, stand)
  {
    if ComesAfter(iss, stand) && iss.year == stand.year { ShortFits(iss.number); }
    if ComesNotAfter(iss, stand) && iss.year == stand.year { ShortFits(stand.number); }
  }

  /** A linked issue that comes after the Stand makes the law stale, and is reported. */
  lemma LinkedAfterIsStale(inp: Input, now: Time, iss: GazetteIssue)
    requires SyncUsable(inp, now) && inp.stand.parseOK
    requires iss in inp.linkedIssues && iss.id != "" && !IsBareBekanntmachungIssue(iss) && ComesAfter(iss, inp.stand)
    ensures Verdict(inp, now).state == ConfirmedStale && iss.id in Verdict(inp, now).newerIssueIDs
  {
    PlaceDecides(iss, inp.stand);
    CountedMeaning(inp, iss);
    VerdictExact(inp, now);
    NewerIDsExact(inp);
  }

  /** So does a stored issue cited as a law or as an ordinance. */
  lemma CitedAfterIsStale(inp: Input, now: Time, iss: GazetteIssue, ref: InstrumentRef)
    requires SyncUsable(inp, now) && inp.stand.parseOK
    requires iss in inp.instrumentIssues && iss.id != "" && ComesAfter(iss, inp.stand)
    requires ref in inp.instrumentRefs && (ref.kind == "G" || ref.kind == "V")
    requires ref.teil == iss.teil && ref.year == iss.year && ref.number == iss.number
    ensures Verdict(inp, now).state == ConfirmedStale && iss.id in Verdict(inp, now).newerIssueIDs
  {
    PlainKind(ref);
    assert CitedAs(ref, iss);
    PlaceDecides(iss, inp.stand);
    CountedMeaning(inp, iss);
    VerdictExact(inp, now);
    NewerIDsExact(inp);
  }

  /** Issues that do not come after the Stand never make the law stale. */
  lemma NothingAfterIsNotStale(inp: Input, now: Time)
    requires inp.stand.parseOK
    requires forall iss :: iss in inp.linkedIssues || iss in inp.instrumentIssues ==> ComesNotAfter(iss, inp.stand)
    ensures Verdict(inp, now).state != ConfirmedStale
  {
    VerdictExact(inp, now);
    forall iss | iss in inp.linkedIssues || iss in inp.instrumentIssues ensures !CountedNewer(inp, iss) {
      PlaceDecides(iss, inp.stand);
      CountedMeaning(inp, iss);
    }
  }

  // ---------- open refs ----------

  /** The kinds the citation parser produces, written as it writes them. */
  predicate IsPlainKind(kind: string) { kind == "" || kind == "G" || kind == "V" || kind == "BEK" }

  lemma PlainKind(ref: InstrumentRef)
    requires IsPlainKind(ref.kind)
    ensures KindOf(ref) == ref.kind
  {
    assert Text.Upper("") == "" && Text.Upper("G") == "G" && Text.Upper("V") == "V" && Text.Upper("BEK") == "BEK";
    assert Text.TrimSpace("BEK") == "BEK" && Text.TrimSpace("G") == "G" && Text.TrimSpace("V") == "V";
  }

  /** A usable citation of an ordinance, of a notice on a section, or, next to linked rows, of something
      unnamed, that is not the Stand itself. */
  predicate Open(ref: InstrumentRef, stand: StandCitation, linked: bool) {
    && ref.year != 0 && (ref.number != "" || ref.teil != 0)
    && !(stand.parseOK && (stand.teil, stand.year, stand.number) == (ref.teil, ref.year, ref.number))
    && (ref.kind == "V" || (ref.kind == "BEK" && Text.TrimSpace(ref.sectionHint) != "") || (ref.kind == "" && linked))
  }

  lemma ConsideredMeaning(inp: Input, ref: InstrumentRef)
    requires IsPlainKind(ref.kind)
    ensures Considered(inp, ref) <==> Open(ref, inp.stand, inp.hasSeeded)
  {
    PlainKind(ref);
  }

  /** Judged on its own, without resolutions, a law is current exactly when sync is fresh and complete,
      its Stand is parsed, no issue looked at is newer and no ref is open. */
  lemma AloneCurrentIff(inp: Input, now: Time)
    requires inp.maxAge <= MAX_DURATION && inp.vrefResolutions.None?
    requires forall ref :: ref in inp.instrumentRefs ==> IsPlainKind(ref.kind)
    ensures Verdict(inp, now).state == ConfirmedCurrent <==>
      && AllRead(inp, now) && inp.stand.parseOK
      && (forall iss :: LookedAt(inp, iss) ==> !Newer(iss, inp.stand))
      && (forall ref :: ref in inp.instrumentRefs ==> !Open(ref, inp.stand, inp.hasSeeded))
  {
    VerdictExact(inp, now);
    UsableMeaning(inp, now);
    forall iss { CountedMeaning(inp, iss); }
    forall ref | ref in inp.instrumentRefs { ConsideredMeaning(inp, ref); }
  }

  // ---------- what the record and the report say ----------

  predicate AllRecent(inp: Input, now: Time) {
    && Recent(inp.lastTOCSuccess, now, inp.maxAge) && Recent(inp.lastGIIFeedSuccess, now, inp.maxAge)
    && Recent(inp.lastBGBlSuccess, now, inp.maxAge)
  }

  /** Some linked issue is only guessed to concern the law, and none is known to. */
  ghost predicate OnlyGuessed(inp: Input) {
    && (exists iss :: iss in inp.linkedIssues && iss.id in inp.linkClasses && inp.linkClasses[iss.id] == LinkHeuristic)
    && (forall iss :: iss in inp.linkedIssues && iss.id in inp.linkClasses ==> inp.linkClasses[iss.id] != LinkConfirmed)
  }

  lemma GuessedMeaning(inp: Input)
    ensures OnlyHeuristicLinks(inp) <==> OnlyGuessed(inp)
  {
    if iss :| iss in inp.linkedIssues && HasClass(inp, iss, LinkHeuristic) {}
    if iss :| iss in inp.linkedIssues && iss.id in inp.linkClasses && inp.linkClasses[iss.id] == LinkHeuristic {
      assert HasClass(inp, iss, LinkHeuristic);
    }
  }

  lemma RecentMeaning(inp: Input, now: Time)
    requires inp.maxAge <= MAX_DURATION
    ensures SyncWithinMaxAge(inp, now) <==> AllRecent(inp, now)
  {
  }

  /** The first thing that stands in the way is named, with low confidence. */
  lemma DoubtTells(inp: Input, now: Time)
    requires inp.maxAge <= MAX_DURATION
    ensures var v := Verdict(inp, now);
      && (!AllRecent(inp, now) ==> (v.state, v.confidence, v.rationale) == (Uncertain, Low, "sync data older than max age"))
      && (AllRecent(inp, now) && inp.bgblFromProbeOnly ==>
           (v.state, v.confidence, v.rationale) == (Uncertain, Low, "bgbl_evidence_probe_only"))
      && (AllRecent(inp, now) && !inp.bgblFromProbeOnly && inp.linksReadFailed ==>
           (v.state, v.confidence, v.rationale) == (Uncertain, Low, "links_read_failed"))
      && (AllRead(inp, now) && v.state == Uncertain ==>
           if inp.stand.parseOK then v.confidence == Medium else (v.confidence, v.rationale) == (Low, "stand_unparsed_or_missing"))
  {
    RecentMeaning(inp, now);
  }

  /** The record is about the law and the instant asked for, and guessed links take a step off the
      confidence of a confirmed answer. */
  lemma RecordTells(inp: Input, now: Time)
    ensures var v := Verdict(inp, now);
      && v.lawID == inp.lawID && v.evaluatedAt == now && (v.evidence == ProbeOnly <==> inp.bgblFromProbeOnly)
      && (v.state != Uncertain ==> v.confidence == if OnlyGuessed(inp) then Medium else High)
  {
    GuessedMeaning(inp);
  }

  /** The refs a diagnosis is given for. */
  ghost predicate Diagnosed(inp: Input, ref: InstrumentRef, c: Classification) {
    && ref.year != 0 && (ref.number != "" || ref.teil != 0)
    && !(inp.stand.parseOK && (inp.stand.teil, inp.stand.year, inp.stand.number) == (ref.teil, ref.year, ref.number))
    && match c
       case IgnoredBareBek => ref.kind == "BEK" && Text.TrimSpace(ref.sectionHint) == ""
       case MissingSeed => ref.kind == "" && !inp.hasSeeded
       case SupersededOrPast =>
         && Open(ref, inp.stand, inp.hasSeeded) && inp.vrefResolutions.Some?
         && var r := FindVRefResolution(inp.vrefResolutions.value, ref); r.Some? && r.value.historical
       case NotMatched => Unmatched(inp, ref)
       case ChildNotCurrent => ChildNotConfirmed(inp, ref)
  }

  lemma ClassifyMeaning(inp: Input, ref: InstrumentRef, c: Classification)
    requires IsPlainKind(ref.kind)
    ensures Classify(inp, ref) == Some(c) <==> Diagnosed(inp, ref, c)
  {
    PlainKind(ref);
  }

  /** A diagnosis is in the report exactly when some ref of the law calls for it. */
  lemma ReportedIff(inp: Input, c: Classification)
    requires forall ref :: ref in inp.instrumentRefs ==> IsPlainKind(ref.kind)
    ensures Reports(Report(inp, inp.instrumentRefs), c) <==> exists ref :: ref in inp.instrumentRefs && Diagnosed(inp, ref, c)
  {
    ReportMembers(Classifier(inp), inp.instrumentRefs, c);
    forall k | 0 <= k < |inp.instrumentRefs|
      ensures Classifier(inp)(inp.instrumentRefs[k]) == Some(c) <==> Diagnosed(inp, inp.instrumentRefs[k], c)
    {
      assert inp.instrumentRefs[k] in inp.instrumentRefs;
      ClassifyMeaning(inp, inp.instrumentRefs[k], c);
    }
    if ref :| ref in inp.instrumentRefs && Diagnosed(inp, ref, c) {
      var k :| 0 <= k < |inp.instrumentRefs| && inp.instrumentRefs[k] == ref;
      assert Classifier(inp)(inp.instrumentRefs[k]) == Some(c);
    }
  }
}
