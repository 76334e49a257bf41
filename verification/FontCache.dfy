/** The cache of loaded fonts that are sharper than the one an element uses. */
module FontCache {
  import opened Words

  const ENTRY_CAPACITY := 8
  const LOOKUP_RETRY_MILLISECONDS := 5000
  const TWO31: int := 0x8000_0000

  // A pointer; null is 0.
  type Pointer = nat

  datatype Entry = Entry(font: Pointer, sourceFont: Pointer, objectIndex: int, bold: bool)

  datatype Status = Empty | Valid | SourceChanged | CandidateModeChanged | ObjectTableUnavailable | IndexOutOfRange | SlotChanged

  // What the engine's objects say of themselves. Heights that are not finite are None.
  datatype Info = Info(name: Option<string>, isFont: bool, hasMethods: bool, height: Option<real>)

  // The engine during one call: its object table, if it is sound, and its objects.
  datatype Engine = Engine(objects: Option<seq<Pointer>>, info: Pointer -> Info)

  const REGULAR_ARIAL_CANDIDATES := [
    "GA_Font_ArialReg_30pt", "GA_Font_ArialReg_24pt", "GA_Font_Arial_22pt", "GA_Font_Arial_Reg_20pt", "GA_Font_Arial_Reg_18pt",
    "GA_Font_ArialReg_16pt"]

  const BOLD_ARIAL_CANDIDATES := [
    "GA_Font_ArialBold_36pt", "GA_Font_ArialBold_30pt", "GA_Font_ArialBold_24pt", "GA_Font_ArialBold_22pt", "GA_Font_ArialBold_20pt",
    "GA_Font_ArialBold_18pt", "GA_Font_ArialBold_16pt"]

  predicate NameInCandidates(e: Engine, object_: Pointer, candidates: seq<string>)
  {
    object_ != 0 && e.info(object_).name.Some? && e.info(object_).name.value in candidates
  }

  predicate MatchesCandidateSet(e: Engine, object_: Pointer, candidates: seq<string>, allowRegularFallback: bool)
  {
    NameInCandidates(e, object_, candidates) || (allowRegularFallback && NameInCandidates(e, object_, REGULAR_ARIAL_CANDIDATES))
  }

  predicate IsBold(e: Engine, font: Pointer)
  {
    font != 0 && e.info(font).name.Some? && Contains(e.info(font).name.value, "Bold")
  }

  predicate StandsAt(s: string, t: string, k: nat) { k + |t| <= |s| && s[k..k + |t|] == t }

  predicate Contains(s: string, t: string) { exists k :: 0 <= k <= |s| && StandsAt(s, t, k) }

  predicate Usable(e: Engine, object_: Pointer) { object_ != 0 && e.info(object_).isFont && e.info(object_).hasMethods }

  predicate KeyMatches(entry: Entry, sourceFont: Pointer, bold: bool) { entry.sourceFont == sourceFont && entry.bold == bold }

  // Validate.
  function StatusOf(entry: Entry, sourceFont: Pointer, bold: bool, objects: Option<seq<Pointer>>): Status
  {
    if entry.font == 0 then Empty
    else if entry.sourceFont != sourceFont then SourceChanged
    else if entry.bold != bold then CandidateModeChanged
    else if objects.None? then ObjectTableUnavailable
    else if entry.objectIndex < 0 || entry.objectIndex >= |objects.value| then IndexOutOfRange
    else if objects.value[entry.objectIndex] == entry.font then Status.Valid
    else SlotChanged
  }

  // The ticks are milliseconds modulo 2^32; a tick is reached for half the cycle.
  predicate TickReached(now: Word, target: Word) { Wrap(now - target) < TWO31 }

  function Deadline(now: Word, retry: Word): Word { if Wrap(now + retry) == 0 then 1 else Wrap(now + retry) }

  /**
   However long the clock runs and wraps around, a scan is reserved at time t after one at time s, measured
   without wrapping, if and only if the time since the deadline is within the first half of a clock cycle.
   */
  lemma {:induction false} ReservedWithinHalfCycle(s: nat, t: nat, retry: Word)
    requires s <= t
    ensures
      var late := t - s - retry - (if (s + retry) % TWO32 == 0 then 1 else 0);
      TickReached(t % TWO32, Deadline(s % TWO32, retry)) <==> late % TWO32 < TWO31
  {
    var now, then_ := t % TWO32, s % TWO32;
    WrapAdd(s, retry);
    var d := Deadline(then_, retry);
    var adjust := if (s + retry) % TWO32 == 0 then 1 else 0;
    assert d == (s + retry) % TWO32 + adjust;
    Residues(t, s + retry, adjust);
  }

  lemma {:induction false} Residues(t: int, u: int, a: int)
    ensures Wrap(t % TWO32 - (u % TWO32 + a)) == Wrap(t - u - a)
  {
    var p, q := t / TWO32, u / TWO32;
    assert t == TWO32 * p + t % TWO32 && u == TWO32 * q + u % TWO32;
    Shifted(t % TWO32 - (u % TWO32 + a), p - q);
  }

  lemma {:induction false} Shifted(x: int, k: int)
    ensures (x + TWO32 * k) % TWO32 == x % TWO32
  {
  }

  /** So scans are the retry interval apart, for retry intervals of less than half a clock cycle and no others. */
  lemma {:induction false} ScansAreApart(retry: Word)
    ensures (forall s: nat, t: nat :: s <= t && TickReached(t % TWO32, Deadline(s % TWO32, retry)) ==> t - s >= retry) <==> retry < TWO31
  {
    hide TickReached, Deadline;
    if retry < TWO31 {
      forall s: nat, t: nat | s <= t && TickReached(t % TWO32, Deadline(s % TWO32, retry))
        ensures t - s >= retry
      {
        NotTooSoon(s, t, retry);
      }
    } else {
      var s := if retry == TWO31 then TWO31 else 0;
      ReservedWithinHalfCycle(s, s, retry);
      assert TickReached(s % TWO32, Deadline(s % TWO32, retry));
    }
  }

  lemma {:induction false} NotTooSoon(s: nat, t: nat, retry: Word)
    requires s <= t && TickReached(t % TWO32, Deadline(s % TWO32, retry)) && retry < TWO31
    ensures t - s >= retry
  {
    hide TickReached, Deadline;
    ReservedWithinHalfCycle(s, t, retry);
  }

  // An object that would be sharper: a font with the methods needed, of a name on the list and higher than the source.
  predicate Improves(e: Engine, object_: Pointer, candidates: seq<string>, sourceHeight: real)
  {
    var info := e.info(object_);
    && object_ != 0 && info.isFont && info.hasMethods
    && info.name.Some? && info.name.value in candidates
    && info.height.Some? && info.height.value > sourceHeight
  }

  function Height(e: Engine, object_: Pointer): real
  {
    if e.info(object_).height.Some? then e.info(object_).height.value else 0.0
  }

  datatype Match = Match(font: Pointer, objectIndex: int)

  // The object at this index is the one to use: the lowest that is high enough, else the highest of all,
  // and the first of equals.
  ghost predicate IsBest(e: Engine, objects: seq<Pointer>, candidates: seq<string>, source: real, target: real, i: nat)
    requires i < |objects|
  {
    var h := Height(e, objects[i]);
    && Improves(e, objects[i], candidates, source)
    && forall j :: 0 <= j < |objects| && Improves(e, objects[j], candidates, source) ==>
         var g := Height(e, objects[j]);
         if h >= target then g < target || g > h || (g == h && i <= j)
         else g < target && (g < h || (g == h && i <= j))
  }

  // Before index n, the running best of one kind.
  ghost predicate LowestSo(e: Engine, objects: seq<Pointer>, candidates: seq<string>, source: real, target: real, n: nat, m: Match)
    requires n <= |objects|
  {
    if m.font == 0 then
      forall j :: 0 <= j < n && Improves(e, objects[j], candidates, source) ==> Height(e, objects[j]) < target
    else
      && 0 <= m.objectIndex < n && objects[m.objectIndex] == m.font && Improves(e, m.font, candidates, source)
      && Height(e, m.font) >= target
      && forall j :: 0 <= j < n && Improves(e, objects[j], candidates, source) && Height(e, objects[j]) >= target ==>
           Height(e, objects[j]) > Height(e, m.font) || (Height(e, objects[j]) == Height(e, m.font) && m.objectIndex <= j)
  }

  ghost predicate HighestSo(e: Engine, objects: seq<Pointer>, candidates: seq<string>, source: real, n: nat, m: Match)
    requires n <= |objects|
  {
    if m.font == 0 then
      forall j :: 0 <= j < n ==> !Improves(e, objects[j], candidates, source)
    else
      && 0 <= m.objectIndex < n && objects[m.objectIndex] == m.font && Improves(e, m.font, candidates, source)
      && forall j :: 0 <= j < n && Improves(e, objects[j], candidates, source) ==>
           Height(e, objects[j]) < Height(e, m.font) || (Height(e, objects[j]) == Height(e, m.font) && m.objectIndex <= j)
  }

  /** FindBestLoadedFont: the best object of the table, or none if nothing improves. */
  method FindBestLoadedFont(e: Engine, objects: seq<Pointer>, candidates: seq<string>, sourceHeight: real, targetHeight: real)
    returns (m: Match)
    requires targetHeight > sourceHeight
    ensures m.font == 0 ==> forall j :: 0 <= j < |objects| ==> !Improves(e, objects[j], candidates, sourceHeight)
    ensures m.font != 0 ==>
      && 0 <= m.objectIndex < |objects| && objects[m.objectIndex] == m.font
      && IsBest(e, objects, candidates, sourceHeight, targetHeight, m.objectIndex)
  {
    var smallestSufficient, largestImprovement := Match(0, 0), Match(0, 0);
    var smallestSufficientHeight, largestImprovementHeight := 0.0, sourceHeight;
    for index := 0 to |objects|
      invariant LowestSo(e, objects, candidates, sourceHeight, targetHeight, index, smallestSufficient)
      invariant smallestSufficient.font != 0 ==> smallestSufficientHeight == Height(e, smallestSufficient.font)
      invariant HighestSo(e, objects, candidates, sourceHeight, index, largestImprovement)
      invariant largestImprovementHeight ==
        if largestImprovement.font == 0 then sourceHeight else Height(e, largestImprovement.font)
    {
      var object_ := objects[index];
      ImprovesIsNotNull(e, object_, candidates, sourceHeight);
      if !NameInCandidates(e, object_, candidates) || !Usable(e, object_) {
        continue;
      }
      if e.info(object_).height.None? || e.info(object_).height.value <= sourceHeight {
        continue;
      }
      var height := e.info(object_).height.value;
      if height > largestImprovementHeight {
        largestImprovement := Match(object_, index);
        largestImprovementHeight := height;
      }
      if height >= targetHeight && (smallestSufficient.font == 0 || height < smallestSufficientHeight) {
        smallestSufficient := Match(object_, index);
        smallestSufficientHeight := height;
      }
    }
    return if smallestSufficient.font != 0 then smallestSufficient else largestImprovement;
  }

  lemma {:induction false} ImprovesIsNotNull(e: Engine, object_: Pointer, candidates: seq<string>, source: real)
    ensures Usable(e, object_) ==> object_ != 0
    ensures Improves(e, object_, candidates, source) ==> object_ != 0
  {
  }

  // A key of an element in use.
  predicate SameKey(x: Entry, y: Entry) { x.sourceFont == y.sourceFont && x.bold == y.bold }

  ghost predicate DistinctKeys(es: seq<Entry>)
  {
    forall i, j :: 0 <= i < j < |es| && es[i].sourceFont != 0 ==> !SameKey(es[i], es[j])
  }

  // The times of the reserved scans, without wrapping: a retry interval apart each.
  ghost predicate Apart(scans: seq<nat>)
  {
    forall k :: 0 < k < |scans| ==> scans[k] >= scans[k - 1] + 5000
  }

  // What a scan may come back with: the best of the family, else the best regular one if that is allowed,
  // and nothing only if nothing improves.
  ghost predicate Chosen(e: Engine, objects: seq<Pointer>, candidates: seq<string>, allowRegularFallback: bool, source: real, target: real,
                         font: Pointer)
  {
    var none := NoneImproves(e, objects, candidates, source);
    if font == 0 then none && (allowRegularFallback ==> NoneImproves(e, objects, REGULAR_ARIAL_CANDIDATES, source))
    else exists i ::
      && 0 <= i < |objects| && objects[i] == font
      && (IsBest(e, objects, candidates, source, target, i)
          || (none && allowRegularFallback && IsBest(e, objects, REGULAR_ARIAL_CANDIDATES, source, target, i)))
  }

  ghost predicate NoneImproves(e: Engine, objects: seq<Pointer>, candidates: seq<string>, source: real)
  {
    forall j :: 0 <= j < |objects| ==> !Improves(e, objects[j], candidates, source)
  }

  // The arguments ask for a font at all.
  predicate Asks(sourceFont: Pointer, viewportHeight: Option<real>, maximumVisualScale: Option<real>)
  {
    && sourceFont != 0 && viewportHeight.Some? && viewportHeight.value > 0.0
    && maximumVisualScale.Some? && maximumVisualScale.value > 1.0
  }

  function Candidates(bold: bool): seq<string> { if bold then BOLD_ARIAL_CANDIDATES else REGULAR_ARIAL_CANDIDATES }

  // s is t with something before it and something behind.
  ghost predicate IsAround(s: string, t: string, before: string, behind: string) { s == before + t + behind }

  lemma {:induction false} ContainsIff(s: string, t: string)
    ensures Contains(s, t) <==> exists before, behind :: IsAround(s, t, before, behind)
  {
    if k :| 0 <= k <= |s| && StandsAt(s, t, k) {
      assert IsAround(s, t, s[..k], s[k + |t|..]);
    }
    if before, behind :| IsAround(s, t, before, behind) {
      assert StandsAt(s, t, |before|);
    }
  }

  lemma {:induction false} StandsWithFirst(s: string, t: string, k: nat)
    requires t != []
    ensures StandsAt(s, t, k) ==> k < |s| && s[k] == t[0]
  {
    assert k + |t| <= |s| ==> s[k..k + |t|][0] == s[k];
  }

  lemma {:induction false} NoneWithout(s: string, t: string)
    requires t != [] && forall k :: 0 <= k < |s| ==> s[k] != t[0]
    ensures !Contains(s, t)
  {
    forall k | 0 <= k <= |s|
      ensures !StandsAt(s, t, k)
    {
      StandsWithFirst(s, t, k);
    }
  }

  /** Every name of the bold list contains "Bold", and none of the regular list does. */
  lemma {:induction false} ListsAreFamilies(name: string)
    ensures name in BOLD_ARIAL_CANDIDATES ==> Contains(name, "Bold")
    ensures name in REGULAR_ARIAL_CANDIDATES ==> !Contains(name, "Bold")
  {
    if name in BOLD_ARIAL_CANDIDATES {
      assert StandsAt(name, "Bold", 13);
    }
    if name in REGULAR_ARIAL_CANDIDATES {
      forall k | 0 <= k < |name| ensures name[k] != 'B' { }
      NoneWithout(name, "Bold");
    }
  }

  // What comes before the "pt" at the end of a name.
  function SizeOf(name: string): (r: string)
    requires |name| >= 4
  {
    name[|name| - 4..|name| - 2]
  }

  /** Both lists run from the largest size to the smallest, 36 to 16 points: the same ones, but for the largest bold one. */
  lemma {:induction false} SizesAreAlike(k: nat)
    requires k < |REGULAR_ARIAL_CANDIDATES|
    ensures |BOLD_ARIAL_CANDIDATES| == |REGULAR_ARIAL_CANDIDATES| + 1 == 7
    ensures |REGULAR_ARIAL_CANDIDATES[k]| >= 4 && |BOLD_ARIAL_CANDIDATES[0]| >= 4 && |BOLD_ARIAL_CANDIDATES[k + 1]| >= 4
    ensures SizeOf(REGULAR_ARIAL_CANDIDATES[k]) == SizeOf(BOLD_ARIAL_CANDIDATES[k + 1]) == ["30", "24", "22", "20", "18", "16"][k]
    ensures SizeOf(BOLD_ARIAL_CANDIDATES[0]) == "36"
  {
    assert k == 0 || k == 1 || k == 2 || k == 3 || k == 4 || k == 5;
  }

  // A font of the bold family, and one of the regular family.
  lemma {:induction false} CandidateIsOfFamily(e: Engine, font: Pointer)
    ensures NameInCandidates(e, font, BOLD_ARIAL_CANDIDATES) ==> IsBold(e, font)
    ensures NameInCandidates(e, font, REGULAR_ARIAL_CANDIDATES) ==> !IsBold(e, font)
  {
    hide Contains;
    if font != 0 && e.info(font).name.Some? {
      ListsAreFamilies(e.info(font).name.value);
    }
  }

  // A scan can be reserved at this time, after these.
  ghost predicate Due(scans: seq<nat>, time: nat)
  {
    scans == [] || TickReached(time % TWO32, Deadline(scans[|scans| - 1] % TWO32, 5000))
  }

  // The font is where the entry says in the table, and of the family that may be used.
  ghost predicate Sound(e: Engine, entry: Entry, candidates: seq<string>, allowRegularFallback: bool)
  {
    && e.objects.Some? && entry.font != 0
    && 0 <= entry.objectIndex < |e.objects.value| && e.objects.value[entry.objectIndex] == entry.font
    && var info := e.info(entry.font);
    && info.isFont && info.hasMethods && info.name.Some?
    && (info.name.value in candidates || (allowRegularFallback && info.name.value in REGULAR_ARIAL_CANDIDATES))
  }

  // Entry k is the one to give up: the first free one, or the next victim if there is none.
  predicate Replaceable(es: seq<Entry>, victim: Word, k: nat)
    requires k < |es|
  {
    if es[k].font == 0 then forall j :: 0 <= j < k ==> es[j].font != 0
    else (forall j :: 0 <= j < |es| ==> es[j].font != 0) && k == victim % 8
  }

  // Of the entries with another key at most one was given up, for this font.
  ghost predicate OthersStay(es: seq<Entry>, es': seq<Entry>, font: Pointer, sourceFont: Pointer, bold: bool, victim: Word)
  {
    && |es'| == |es|
    && forall k :: 0 <= k < |es| && es'[k] != es[k] && !KeyMatches(es[k], sourceFont, bold) ==>
         font != 0 && es'[k].font == font && KeyMatches(es'[k], sourceFont, bold) && Replaceable(es, victim, k)
  }

  lemma {:induction false} NothingStays(es: seq<Entry>, es': seq<Entry>, sourceFont: Pointer, bold: bool, victim: Word)
    requires |es'| == |es| && forall j :: 0 <= j < |es| && !KeyMatches(es[j], sourceFont, bold) ==> es'[j] == es[j]
    ensures forall font :: OthersStay(es, es', font, sourceFont, bold, victim)
  {
  }

  lemma {:induction false} PublishedStays(es: seq<Entry>, es1: seq<Entry>, matchingIndex: nat, target: nat, entry: Entry, victim: Word)
    requires |es| == |es1| == ENTRY_CAPACITY && target < ENTRY_CAPACITY && matchingIndex <= ENTRY_CAPACITY && entry.font != 0
    requires forall j :: 0 <= j < |es| ==> SameKey(es1[j], es[j])
    requires forall j :: 0 <= j < |es| && !KeyMatches(es[j], entry.sourceFont, entry.bold) ==> es1[j] == es[j]
    requires forall j :: 0 <= j < |es| ==> (KeyMatches(es1[j], entry.sourceFont, entry.bold) <==> j == matchingIndex)
    requires if matchingIndex < ENTRY_CAPACITY then target == matchingIndex else Replaceable(es1, victim, target)
    ensures OthersStay(es, es1[target := entry], entry.font, entry.sourceFont, entry.bold, victim)
  {
    if matchingIndex == ENTRY_CAPACITY {
      assert es1 == es;
    }
  }

  // The cache holds a sound font for the key.
  ghost predicate Held(e: Engine, es: seq<Entry>, sourceFont: Pointer, bold: bool, candidates: seq<string>, allowRegularFallback: bool)
  {
    exists k :: 0 <= k < |es| && KeyMatches(es[k], sourceFont, bold) && Sound(e, es[k], candidates, allowRegularFallback)
  }

  class LoadedFontCache {
    const entries: array<Entry>
    var nextScanTick: Word
    var nextVictim: Word
    ghost var scans: seq<nat>

    ghost predicate Valid()
      reads this, entries
    {
      && entries.Length == ENTRY_CAPACITY
      && DistinctKeys(entries[..])
      && Apart(scans)
      && (if scans == [] then nextScanTick == 0
          else nextScanTick == Deadline(scans[|scans| - 1] % TWO32, LOOKUP_RETRY_MILLISECONDS))
    }

    constructor ()
      ensures Valid() && fresh(entries) && scans == [] && entries.Length == 8
    {
      entries := new Entry[ENTRY_CAPACITY](_ => Entry(0, 0, -1, false));
      nextScanTick, nextVictim, scans := 0, 0, [];
    }

    /**
     TryReserveScan, one atomic step. It refuses within the retry interval, and again in every second half of a
     clock cycle from then on.
     */
    method TryReserveScan(time: nat) returns (ok: bool)
      requires Valid() && (scans != [] ==> scans[|scans| - 1] <= time)
      modifies this`nextScanTick, this`scans
      ensures Valid() && scans == if ok then old(scans) + [time] else old(scans)
      ensures ok <==> Due(old(scans), time)
    {
      hide TickReached, Deadline;
      var now := time % TWO32;
      DeadlineIsNotZero(nextScanTick, LOOKUP_RETRY_MILLISECONDS);
      if scans != [] {
        DeadlineIsNotZero(scans[|scans| - 1] % TWO32, LOOKUP_RETRY_MILLISECONDS);
      }
      if nextScanTick != 0 && !TickReached(now, nextScanTick) {
        return false;
      }
      if scans != [] {
        NotTooSoon(scans[|scans| - 1], time, LOOKUP_RETRY_MILLISECONDS);
      }
      DeadlineIs(now);
      var deadline := Wrap(now + LOOKUP_RETRY_MILLISECONDS);
      if deadline == 0 {
        deadline := 1;
      }
      nextScanTick := deadline;
      scans := scans + [time];
      ok := true;
    }

    // ChooseStorageIndex, and the sequence number it uses up.
    method ChooseStorageIndex() returns (r: nat)
      requires entries.Length == ENTRY_CAPACITY
      modifies this`nextVictim
      ensures r < ENTRY_CAPACITY
      ensures entries[r].font == 0 ==> forall j :: 0 <= j < r ==> entries[j].font != 0
      ensures entries[r].font != 0 ==> (forall j :: 0 <= j < ENTRY_CAPACITY ==> entries[j].font != 0) && r == old(nextVictim) % ENTRY_CAPACITY
      ensures nextVictim == Wrap(old(nextVictim) + 1)
    {
      var victimSequence := nextVictim;
      nextVictim := Wrap(nextVictim + 1);
      r := 0;
      while r < ENTRY_CAPACITY
        invariant r <= ENTRY_CAPACITY && forall j :: 0 <= j < r ==> entries[j].font != 0
        modifies {}
      {
        if entries[r].font == 0 {
          return;
        }
        r := r + 1;
      }
      r := victimSequence % ENTRY_CAPACITY;
    }

    // The search of the cache: a sound entry with the key, else its first slot; unsound ones are emptied.
    method Lookup(e: Engine, sourceFont: Pointer, bold: bool, candidates: seq<string>, allowRegularFallback: bool)
      returns (font: Pointer, matchingIndex: nat)
      requires Valid() && sourceFont != 0
      modifies entries
      ensures Valid()
      ensures forall j :: 0 <= j < ENTRY_CAPACITY ==> SameKey(entries[j], old(entries[j])) && entries[j].objectIndex == old(entries[j]).objectIndex
      ensures forall j :: 0 <= j < ENTRY_CAPACITY && !KeyMatches(old(entries[j]), sourceFont, bold) ==> entries[j] == old(entries[j])
      ensures font != 0 ==>
        && matchingIndex < ENTRY_CAPACITY && entries[matchingIndex] == old(entries[matchingIndex])
        && entries[matchingIndex].font == font && KeyMatches(entries[matchingIndex], sourceFont, bold)
        && Sound(e, entries[matchingIndex], candidates, allowRegularFallback)
      ensures font != 0 <==> Held(e, old(entries[..]), sourceFont, bold, candidates, allowRegularFallback)
      ensures font != 0 ==> entries[..] == old(entries[..])
      ensures font == 0 ==>
        && matchingIndex <= ENTRY_CAPACITY
        && (forall j :: 0 <= j < ENTRY_CAPACITY ==> (KeyMatches(entries[j], sourceFont, bold) <==> j == matchingIndex))
        && (matchingIndex < ENTRY_CAPACITY ==> entries[matchingIndex].font == 0)
    {
      ghost var was := entries[..];
      font, matchingIndex := 0, ENTRY_CAPACITY;
      var index := 0;
      while index < ENTRY_CAPACITY
        invariant index <= ENTRY_CAPACITY && Valid()
        invariant forall j :: 0 <= j < ENTRY_CAPACITY ==> SameKey(entries[j], old(entries[j])) && entries[j].objectIndex == old(entries[j]).objectIndex
        invariant forall j :: 0 <= j < ENTRY_CAPACITY && (j >= index || !KeyMatches(old(entries[j]), sourceFont, bold)) ==> entries[j] == old(entries[j])
        invariant matchingIndex == ENTRY_CAPACITY || matchingIndex < index
        invariant forall j :: 0 <= j < index ==> (KeyMatches(entries[j], sourceFont, bold) <==> j == matchingIndex)
        invariant matchingIndex < ENTRY_CAPACITY ==>
          entries[matchingIndex].font == 0 && !Sound(e, was[matchingIndex], candidates, allowRegularFallback)
        modifies entries
      {
        var cached := entries[index];
        assert matchingIndex < index ==> !SameKey(entries[..][matchingIndex], entries[..][index]);
        if KeyMatches(cached, sourceFont, bold) {
          if matchingIndex == ENTRY_CAPACITY {
            matchingIndex := index;
          }
          if cached.font != 0 {
            var status := StatusOf(cached, sourceFont, bold, e.objects);
            if status.Valid? && MatchesCandidateSet(e, cached.font, candidates, allowRegularFallback) && Usable(e, cached.font) {
              assert was[index] == cached && Sound(e, was[index], candidates, allowRegularFallback);
              assert entries[..] == was by { OneMatch(was, entries[..], sourceFont, bold, index); }
              return cached.font, index;
            }
            ghost var es := entries[..];
            entries[index] := cached.(font := 0);
            KeysKept(es, entries[..]);
          }
        }
        index := index + 1;
      }
    }

    // Puts a font found by a scan into the slot of its key, or a free one, or the next victim's.
    method Publish(font: Pointer, objectIndex: int, sourceFont: Pointer, bold: bool, matchingIndex: nat) returns (target: nat)
      requires Valid() && sourceFont != 0 && matchingIndex <= ENTRY_CAPACITY
      requires forall j :: 0 <= j < ENTRY_CAPACITY ==> (KeyMatches(entries[j], sourceFont, bold) <==> j == matchingIndex)
      modifies this`nextVictim, entries
      ensures Valid() && target < ENTRY_CAPACITY
      ensures entries[..] == old(entries[..])[target := Entry(font, sourceFont, objectIndex, bold)]
      ensures matchingIndex < ENTRY_CAPACITY ==> target == matchingIndex
      ensures matchingIndex == ENTRY_CAPACITY ==> Replaceable(old(entries[..]), old(nextVictim), target)
    {
      target := matchingIndex;
      if matchingIndex == ENTRY_CAPACITY {
        target := ChooseStorageIndex();
        assert forall j :: 0 <= j < ENTRY_CAPACITY ==> entries[j] == entries[..][j];
      }
      ghost var es := entries[..];
      entries[target] := entries[target].(font := 0);
      entries[target] := entries[target].(sourceFont := sourceFont);
      entries[target] := entries[target].(objectIndex := objectIndex);
      entries[target] := entries[target].(bold := bold);
      entries[target] := entries[target].(font := font);
      assert entries[..] == es[target := Entry(font, sourceFont, objectIndex, bold)];
    }

    /**
     ResolveSharperArial. Whatever it returns is in the cache, at the recorded index of the current object
     table, and bold if and only if the source is, unless bold is preferred to a source that is not: then a scan
     returns one that is not bold only if no bold one improves. No two slots share a key, and full scans of the table
     are a retry interval apart however the clock wraps.
     */
    method ResolveSharperArial(e: Engine, time: nat, sourceFont: Pointer, viewportHeight: Option<real>, maximumVisualScale: Option<real>,
                               preferBold: bool, sourceHeight: Option<real>)
      returns (font: Pointer)
      requires Valid() && (scans != [] ==> scans[|scans| - 1] <= time)
      modifies this`nextScanTick, this`nextVictim, this`scans, entries
      ensures Valid()
      ensures font != 0 ==>
        var sourceIsBold := IsBold(e, sourceFont);
        var bold := preferBold || sourceIsBold;
        exists k :: 0 <= k < ENTRY_CAPACITY
          && entries[k].font == font && KeyMatches(entries[k], sourceFont, bold)
          && Sound(e, entries[k], Candidates(bold), preferBold && !sourceIsBold)
      ensures !Asks(sourceFont, viewportHeight, maximumVisualScale) ==> font == 0 && scans == old(scans) && entries[..] == old(entries[..])
      ensures Asks(sourceFont, viewportHeight, maximumVisualScale) ==>
        var sourceIsBold := IsBold(e, sourceFont);
        var bold := preferBold || sourceIsBold;
        if Held(e, old(entries[..]), sourceFont, bold, Candidates(bold), preferBold && !sourceIsBold) then
          font != 0 && scans == old(scans) && entries[..] == old(entries[..])
        else
          && scans == (if e.objects.Some? && Due(old(scans), time) then old(scans) + [time] else old(scans))
          && if scans == old(scans) || sourceHeight.None? || sourceHeight.value <= 0.0 then font == 0
             else Chosen(e, e.objects.value, Candidates(bold), preferBold && !sourceIsBold, sourceHeight.value,
                         TargetHeight(sourceHeight.value, maximumVisualScale.value), font)
      ensures OthersStay(old(entries[..]), entries[..], font, sourceFont, preferBold || IsBold(e, sourceFont), old(nextVictim))
      ensures font != 0 && (IsBold(e, sourceFont) || !preferBold) ==> (IsBold(e, font) <==> IsBold(e, sourceFont))
      ensures font != 0 && scans != old(scans) && preferBold && !IsBold(e, font) ==>
        e.objects.Some? && sourceHeight.Some? && NoneImproves(e, e.objects.value, BOLD_ARIAL_CANDIDATES, sourceHeight.value)
    {
      hide Sound, Usable, IsBold, Improves, KeyMatches, TickReached, Deadline, Held, Chosen, Due, OthersStay,
        Replaceable, SameKey, NoneImproves, DistinctKeys, Apart, TargetHeight;
      NothingStays(entries[..], entries[..], sourceFont, preferBold || IsBold(e, sourceFont), nextVictim);
      if sourceFont == 0 || viewportHeight.None? || viewportHeight.value <= 0.0
         || maximumVisualScale.None? || maximumVisualScale.value <= 1.0 {
        return 0;
      }
      var sourceIsBold := IsBold(e, sourceFont);
      var bold := preferBold || sourceIsBold;
      var allowRegularFallback := preferBold && !sourceIsBold;
      var candidates := Candidates(bold);
      var matchingIndex;
      font, matchingIndex := Lookup(e, sourceFont, bold, candidates, allowRegularFallback);
      assert forall j :: 0 <= j < ENTRY_CAPACITY ==> entries[..][j] == entries[j] && old(entries[..])[j] == old(entries[j]);
      NothingStays(old(entries[..]), entries[..], sourceFont, bold, nextVictim);
      if font != 0 {
        SoundIsOfFamily(e, entries[matchingIndex], preferBold, sourceIsBold);
      }
      if font != 0 || e.objects.None? {
        return;
      }
      var reserved := TryReserveScan(time);
      if !reserved || sourceHeight.None? || sourceHeight.value <= 0.0 {
        return 0;
      }
      TargetHeightIs(sourceHeight.value, maximumVisualScale.value);
      var targetHeight := TargetHeight(sourceHeight.value, maximumVisualScale.value);
      ghost var es := entries[..];
      ghost var k: nat;
      font, k := Replace(e, candidates, allowRegularFallback, sourceHeight.value, targetHeight, sourceFont, bold, matchingIndex);
      if font != 0 {
        PublishedStays(old(entries[..]), es, matchingIndex, k, entries[k], old(nextVictim));
        PublishedMatches(entries[k], sourceFont, bold);
        SoundIsOfFamily(e, entries[k], preferBold, sourceIsBold);
        ChosenIsOfFamily(e, e.objects.value, preferBold, sourceIsBold, sourceHeight.value, targetHeight, font);
      }
    }

    // The scan, and what is put into the cache of it, in slot k.
    method Replace(e: Engine, candidates: seq<string>, allowRegularFallback: bool, sourceHeight: real, targetHeight: real,
                   sourceFont: Pointer, bold: bool, matchingIndex: nat)
      returns (font: Pointer, ghost k: nat)
      requires Valid() && sourceFont != 0 && e.objects.Some? && targetHeight > sourceHeight && matchingIndex <= ENTRY_CAPACITY
      requires forall j :: 0 <= j < ENTRY_CAPACITY ==> (KeyMatches(entries[j], sourceFont, bold) <==> j == matchingIndex)
      modifies this`nextVictim, entries
      ensures Valid() && k < ENTRY_CAPACITY
      ensures Chosen(e, e.objects.value, candidates, allowRegularFallback, sourceHeight, targetHeight, font)
      ensures font == 0 ==> entries[..] == old(entries[..])
      ensures font != 0 ==>
        && entries[..] == old(entries[..])[k := entries[k]]
        && entries[k].font == font && entries[k].sourceFont == sourceFont && entries[k].bold == bold
        && Sound(e, entries[k], candidates, allowRegularFallback)
        && if matchingIndex < ENTRY_CAPACITY then k == matchingIndex else Replaceable(old(entries[..]), old(nextVictim), k)
    {
      hide Sound, Chosen, KeyMatches, Replaceable;
      k := 0;
      var replacement := ScanTable(e, candidates, allowRegularFallback, sourceHeight, targetHeight, sourceFont, bold);
      if replacement.font != 0 {
        k := Publish(replacement.font, replacement.objectIndex, sourceFont, bold, matchingIndex);
        assert entries[k] == entries[..][k];
      }
      font := replacement.font;
    }

    // The scan of the object table: the family asked for, then the regular one if that is allowed.
    method ScanTable(e: Engine, candidates: seq<string>, allowRegularFallback: bool, sourceHeight: real, targetHeight: real,
                     ghost sourceFont: Pointer, ghost bold: bool)
      returns (m: Match)
      requires e.objects.Some? && targetHeight > sourceHeight
      ensures m.font != 0 ==> Sound(e, Entry(m.font, sourceFont, m.objectIndex, bold), candidates, allowRegularFallback)
      ensures Chosen(e, e.objects.value, candidates, allowRegularFallback, sourceHeight, targetHeight, m.font)
    {
      m := FindBestLoadedFont(e, e.objects.value, candidates, sourceHeight, targetHeight);
      if m.font == 0 && allowRegularFallback {
        m := FindBestLoadedFont(e, e.objects.value, REGULAR_ARIAL_CANDIDATES, sourceHeight, targetHeight);
      }
    }
  }

  lemma {:induction false} SoundIsOfFamily(e: Engine, entry: Entry, preferBold: bool, sourceIsBold: bool)
    requires Sound(e, entry, Candidates(preferBold || sourceIsBold), preferBold && !sourceIsBold)
    ensures sourceIsBold || !preferBold ==> (IsBold(e, entry.font) <==> sourceIsBold)
  {
    hide IsBold;
    CandidateIsOfFamily(e, entry.font);
  }

  lemma {:induction false} ChosenIsOfFamily(e: Engine, objects: seq<Pointer>, preferBold: bool, sourceIsBold: bool, source: real,
                                            target: real, font: Pointer)
    requires font != 0 && Chosen(e, objects, Candidates(preferBold || sourceIsBold), preferBold && !sourceIsBold, source, target, font)
    ensures preferBold && !IsBold(e, font) ==> NoneImproves(e, objects, BOLD_ARIAL_CANDIDATES, source)
  {
    hide IsBold, NoneImproves;
    CandidateIsOfFamily(e, font);
  }

  lemma {:induction false} PublishedMatches(entry: Entry, sourceFont: Pointer, bold: bool)
    requires entry.sourceFont == sourceFont && entry.bold == bold
    ensures KeyMatches(entry, sourceFont, bold)
  {
  }

  // Entries that only differ where the key matches, and not at the one place where it does.
  lemma {:induction false} OneMatch(was: seq<Entry>, es: seq<Entry>, sourceFont: Pointer, bold: bool, k: nat)
    requires DistinctKeys(was) && |was| == |es| && k < |was| && sourceFont != 0 && KeyMatches(was[k], sourceFont, bold) && es[k] == was[k]
    requires forall j :: 0 <= j < |was| && !KeyMatches(was[j], sourceFont, bold) ==> es[j] == was[j]
    ensures es == was
  {
    forall j | 0 <= j < |was|
      ensures es[j] == was[j]
    {
      assert KeyMatches(was[j], sourceFont, bold) ==> SameKey(was[j], was[k]) && SameKey(was[k], was[j]);
    }
  }

  // The height at which the source is drawn at the scale.
  function TargetHeight(sourceHeight: real, maximumVisualScale: real): real { sourceHeight * maximumVisualScale }

  lemma {:induction false} TargetHeightIs(x: real, y: real)
    requires x > 0.0 && y > 1.0
    ensures TargetHeight(x, y) / y == x && TargetHeight(x, y) > x
  {
    assert x * (y - 1.0) > 0.0;
  }

  lemma {:induction false} KeysKept(es: seq<Entry>, es': seq<Entry>)
    requires DistinctKeys(es) && |es| == |es'| && forall j :: 0 <= j < |es| ==> SameKey(es[j], es'[j])
    ensures DistinctKeys(es')
  {
  }

  lemma {:induction false} DeadlineIsNotZero(now: Word, retry: Word)
    ensures Deadline(now, retry) != 0
  {
  }

  lemma {:induction false} DeadlineIs(now: Word)
    ensures Deadline(now, LOOKUP_RETRY_MILLISECONDS) ==
      if Wrap(now + LOOKUP_RETRY_MILLISECONDS) == 0 then 1 else Wrap(now + LOOKUP_RETRY_MILLISECONDS)
  {
  }
}