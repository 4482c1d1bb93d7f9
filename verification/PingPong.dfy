/** The two copies of the slot-state record on the card, and what survives any sequence of boots
    that are cut short. */
module PingPong {
  import opened Options
  import opened Crc32
  import opened LittleEndian
  import opened SlotRecord
  import opened BootPolicy

  const SLOT_STATE_BLOCK_A: nat := 9216
  const SLOT_STATE_BLOCK_B: nat := 9217

  /** A card: the blocks that were ever written; the others read as zeros. */
  type Disk = map<nat, Block>

  function ReadBlock(d: Disk, n: nat): Block {
    if n in d then d[n] else Zeros(512)
  }

  datatype Copy = CopyA | CopyB

  function BlockOf(c: Copy): nat {
    match c case CopyA => SLOT_STATE_BLOCK_A case CopyB => SLOT_STATE_BLOCK_B
  }

  function Other(c: Copy): Copy {
    match c case CopyA => CopyB case CopyB => CopyA
  }

  function RecordIn(d: Disk, c: Copy): Option<SlotState> {
    UnpackState(ReadBlock(d, BlockOf(c)))
  }

  datatype Choice = Choice(state: SlotState, copy: Copy)

  /** `read_slot_state`: the valid copy with the higher generation, A on a tie. */
  function Choose(a: Option<SlotState>, b: Option<SlotState>): Option<Choice> {
    match (a, b)
    case (None, None) => None
    case (None, Some(t)) => Some(Choice(t, CopyB))
    case (Some(s), None) => Some(Choice(s, CopyA))
    case (Some(s), Some(t)) => if s.generation >= t.generation then Some(Choice(s, CopyA)) else Some(Choice(t, CopyB))
  }

  /** The loader's own selection, in the order of its tests. */
  method SelectRecord(a: Option<SlotState>, b: Option<SlotState>) returns (chosen: Option<SlotState>, staleBlock: nat)
    ensures var c := Choose(a, b);
            && chosen == (if c.Some? then Some(c.value.state) else None)
            && staleBlock == (if c.Some? then BlockOf(Other(c.value.copy)) else SLOT_STATE_BLOCK_B)
  {
    chosen := None;
    staleBlock := SLOT_STATE_BLOCK_B;
    if a.Some? && b.Some? {
      if a.value.generation >= b.value.generation {
        chosen := a;
        staleBlock := SLOT_STATE_BLOCK_B;
      } else {
        chosen := b;
        staleBlock := SLOT_STATE_BLOCK_A;
      }
    } else if a.Some? {
      chosen := a;
      staleBlock := SLOT_STATE_BLOCK_B;
    } else if b.Some? {
      chosen := b;
      staleBlock := SLOT_STATE_BLOCK_A;
    }
  }

  function Selected(d: Disk): Option<Choice> {
    Choose(RecordIn(d, CopyA), RecordIn(d, CopyB))
  }

  /** Every state is the selected record of some card. */
  lemma EveryStateHasACard(s: SlotState) returns (d: Disk)
    ensures Selected(d) == Some(Choice(s, CopyA))
  {
    hide UnpackState, PackState;
    d := map[SLOT_STATE_BLOCK_A := PackState(s), SLOT_STATE_BLOCK_B := PackState(s)];
    RoundTrip(s);
  }

  // ---------------------------------------------------------------- one boot's write-back

  /** What becomes of a block write when the power may fail: it lands, it has no effect, or it leaves
      the block with contents that no longer pass for a record. */
  datatype WriteOutcome = Landed | Lost | Torn(left: Block)

  predicate Plausible(w: WriteOutcome) {
    w.Torn? ==> UnpackState(w.left).None?
  }

  function WriteBlock(d: Disk, n: nat, b: Block, w: WriteOutcome): Disk {
    match w
    case Landed => d[n := b]
    case Lost => d
    case Torn(left) => d[n := left]
  }

  /** One boot as the card sees it: which copies could be read, and what became of the write. */
  datatype BootEvent = BootEvent(readsA: bool, readsB: bool, write: WriteOutcome)

  function Visible(d: Disk, e: BootEvent): Option<Choice> {
    Choose(if e.readsA then RecordIn(d, CopyA) else None, if e.readsB then RecordIn(d, CopyB) else None)
  }

  /** The card after one boot: the next record goes over the copy that was not chosen. */
  function BootWrite(d: Disk, e: BootEvent): Disk {
    var c := Visible(d, e);
    if c.None? then d
    else WriteBlock(d, BlockOf(Other(c.value.copy)), PackState(NextState(c.value.state)), e.write)
  }

  function RunBoots(d: Disk, es: seq<BootEvent>): Disk {
    if es == [] then d else BootWrite(RunBoots(d, es[..|es| - 1]), es[|es| - 1])
  }

  predicate ReadsBoth(e: BootEvent) {
    e.readsA && e.readsB
  }

  /** How many of the boots got their record onto the card. */
  function LandedCount(es: seq<BootEvent>): nat {
    if es == [] then 0 else LandedCount(es[..|es| - 1]) + (if es[|es| - 1].write.Landed? then 1 else 0)
  }

  ghost predicate AllPlausible(es: seq<BootEvent>) {
    forall k :: 0 <= k < |es| ==> Plausible(es[k].write)
  }

  /** A write never touches the copy the boot was taken from. */
  lemma ChosenCopyKept(d: Disk, e: BootEvent)
    requires Visible(d, e).Some?
    ensures var c := Visible(d, e).value;
            RecordIn(BootWrite(d, e), c.copy) == RecordIn(d, c.copy) == Some(c.state)
  {
    hide UnpackState, PackState, NextState;
  }

  lemma StaleCopy(d: Disk, e: BootEvent)
    requires Visible(d, e).Some? && Plausible(e.write)
    ensures var c := Visible(d, e).value;
            RecordIn(BootWrite(d, e), Other(c.copy)) ==
            match e.write
            case Landed => Some(NextState(c.state))
            case Lost => RecordIn(d, Other(c.copy))
            case Torn(_) => None
  {
    hide UnpackState, PackState, NextState;
    RoundTrip(NextState(Visible(d, e).value.state));
  }

  /** A boot that reads both copies either advances the selected record or leaves it as it is. */
  lemma BootAdvances(d: Disk, e: BootEvent)
    requires Selected(d).Some? && ReadsBoth(e) && Plausible(e.write)
    ensures var s := Selected(d).value.state;
            && Selected(BootWrite(d, e)).Some?
            && Selected(BootWrite(d, e)).value.state ==
               (if e.write.Landed? && s.generation != U32_MAX then NextState(s) else s)
  {
    hide UnpackState, PackState;
    ChosenCopyKept(d, e);
    StaleCopy(d, e);
  }

  // ---------------------------------------------------------------- whole runs

  ghost predicate HasRecord(d: Disk) {
    RecordIn(d, CopyA).Some? || RecordIn(d, CopyB).Some?
  }

  /** From a card with a valid record, a valid record is there after any boots: whatever could not be
      read, and however each write ended. */
  lemma {:induction false} RecordSurvives(d: Disk, es: seq<BootEvent>)
    requires HasRecord(d)
    ensures HasRecord(RunBoots(d, es))
  {
    hide UnpackState, PackState, NextState;
    if es != [] {
      var n := |es| - 1;
      var d', e := RunBoots(d, es[..n]), es[n];
      RecordSurvives(d, es[..n]);
      if Visible(d', e).Some? {
        ChosenCopyKept(d', e);
      }
    }
  }

  ghost predicate AllReadBoth(es: seq<BootEvent>) {
    forall k :: 0 <= k < |es| ==> ReadsBoth(es[k])
  }

  /** Crash safety as refinement: while both copies can be read, the card behaves as one record that
      every landed boot advances and every other boot leaves alone. */
  lemma {:induction false} RunsAdvance(d: Disk, es: seq<BootEvent>)
    requires Selected(d).Some? && AllReadBoth(es) && AllPlausible(es)
    requires Selected(d).value.state.generation + LandedCount(es) <= U32_MAX
    ensures Selected(RunBoots(d, es)).Some?
    ensures Selected(RunBoots(d, es)).value.state == After(Selected(d).value.state, LandedCount(es))
  {
    hide UnpackState, PackState, NextState, BootWrite, Choose;
    if es != [] {
      var n := |es| - 1;
      var s := Selected(d).value.state;
      RunsAdvance(d, es[..n]);
      BootAdvances(RunBoots(d, es[..n]), es[n]);
      GenerationAfter(s, LandedCount(es[..n]));
      assert ReadsBoth(es[n]) && Plausible(es[n].write);
    }
  }

  /** The selected generation never falls, and grows with a landed write exactly when it is not the
      largest there is. */
  lemma GenerationNeverFalls(d: Disk, e: BootEvent)
    requires Selected(d).Some? && ReadsBoth(e) && Plausible(e.write)
    ensures Selected(BootWrite(d, e)).Some?
    ensures var g, g' := Selected(d).value.state.generation, Selected(BootWrite(d, e)).value.state.generation;
            g <= g' && (g < g' <==> e.write.Landed? && g != U32_MAX)
  {
    hide UnpackState, PackState;
    BootAdvances(d, e);
  }

  lemma {:induction false} GenerationNeverFallsInRuns(d: Disk, es: seq<BootEvent>)
    requires Selected(d).Some? && AllReadBoth(es) && AllPlausible(es)
    ensures Selected(RunBoots(d, es)).Some?
    ensures Selected(d).value.state.generation <= Selected(RunBoots(d, es)).value.state.generation
  {
    hide UnpackState, PackState;
    if es != [] {
      var n := |es| - 1;
      GenerationNeverFallsInRuns(d, es[..n]);
      assert ReadsBoth(es[n]) && Plausible(es[n].write);
      GenerationNeverFalls(RunBoots(d, es[..n]), es[n]);
    }
  }

  /** At the largest generation the card stands still: the next record would carry generation 0 and
      is never selected, so no run of boots counts an attempt or falls back. */
  lemma {:induction false} LargestGenerationStandsStill(d: Disk, es: seq<BootEvent>)
    requires Selected(d).Some? && AllReadBoth(es) && AllPlausible(es)
    requires Selected(d).value.state.generation == U32_MAX
    ensures Selected(RunBoots(d, es)).Some?
    ensures Selected(RunBoots(d, es)).value.state == Selected(d).value.state
  {
    hide UnpackState, PackState;
    if es != [] {
      var n := |es| - 1;
      LargestGenerationStandsStill(d, es[..n]);
      assert ReadsBoth(es[n]) && Plausible(es[n].write);
      BootAdvances(RunBoots(d, es[..n]), es[n]);
    }
  }

  /** The boot can read the copy that would not be selected, and not the selected one. */
  predicate ReadsOnlyOther(e: BootEvent, selected: Copy) {
    if selected.CopyA? then !e.readsA && e.readsB else e.readsA && !e.readsB
  }

  /** The generation may fall when the newer copy cannot be read: the boot then starts from the older
      copy and writes over the newer one. A write that lands leaves the older record, one step on; a lost
      one changes nothing; a torn one leaves the older record. */
  lemma UnreadableNewerCopyIsOverwritten(d: Disk, e: BootEvent)
    requires Selected(d).Some? && RecordIn(d, Other(Selected(d).value.copy)).Some?
    requires ReadsOnlyOther(e, Selected(d).value.copy) && Plausible(e.write)
    ensures Selected(BootWrite(d, e)).Some?
    ensures var newer, older := Selected(d).value.state, RecordIn(d, Other(Selected(d).value.copy)).value;
            var result := Selected(BootWrite(d, e)).value.state;
            match e.write
            case Landed =>
              && result == (if older.generation < U32_MAX then NextState(older) else older)
              && (result.generation < newer.generation <==> older.generation + 1 < newer.generation)
            case Lost => BootWrite(d, e) == d
            case Torn(_) => result == older
  {
    hide UnpackState, PackState;
    ChosenCopyKept(d, e);
    StaleCopy(d, e);
  }

  predicate ActiveA(d: Disk) {
    Selected(d).Some? && OnA(Selected(d).value.state)
  }

  /** How many boots of a run changed the active slot. */
  function SlotChangesOn(d: Disk, es: seq<BootEvent>): nat {
    if es == [] then 0
    else
      var before := es[..|es| - 1];
      SlotChangesOn(d, before) + (if ActiveA(RunBoots(d, es)) != ActiveA(RunBoots(d, before)) then 1 else 0)
  }

  lemma {:induction false} ChangesOnCard(d: Disk, es: seq<BootEvent>)
    requires Selected(d).Some? && AllReadBoth(es) && AllPlausible(es)
    requires Selected(d).value.state.generation + LandedCount(es) <= U32_MAX
    ensures SlotChangesOn(d, es) == SlotChanges(Selected(d).value.state, LandedCount(es))
  {
    hide UnpackState, PackState, NextState, RunBoots, Choose, After;
    if es != [] {
      var before := es[..|es| - 1];
      ChangesOnCard(d, before);
      RunsAdvance(d, before);
      RunsAdvance(d, es);
    }
  }

  /** The closed form of failed boots, on the card: with both slots ready, after a run in which `k` boots
      landed and none succeeded, the counter stands at (c0 + k) mod (limit + 1) and the active slot has
      changed (c0 + k) div (limit + 1) times. */
  lemma FailedBootsOnCard(d: Disk, es: seq<BootEvent>)
    requires Selected(d).Some? && AllReadBoth(es) && AllPlausible(es)
    requires var s := Selected(d).value.state;
             && BothReady(s) && s.attemptCount <= BootLimit(s) < U32_MAX
             && s.generation + LandedCount(es) <= U32_MAX
    ensures Selected(RunBoots(d, es)).Some?
    ensures var s, t, k := Selected(d).value.state, Selected(RunBoots(d, es)).value.state, LandedCount(es);
            && SameContents(t, s) && t.generation == s.generation + k
            && t.attemptCount == (s.attemptCount + k) % (BootLimit(s) + 1)
            && SlotChangesOn(d, es) == (s.attemptCount + k) / (BootLimit(s) + 1)
  {
    hide UnpackState, PackState, NextState, RunBoots, Choose, SlotChangesOn, SlotChanges, After;
    var s, k := Selected(d).value.state, LandedCount(es);
    RunsAdvance(d, es);
    ChangesOnCard(d, es);
    FailedBoots(s, k);
    ContentsKept(s, k);
    GenerationAfter(s, k);
  }

  /** While both copies can be read, a selected record whose other slot is not ready keeps its slot and
      its contents. */
  lemma {:induction false} NotReadyKeepsContentsOnCard(d: Disk, es: seq<BootEvent>)
    requires Selected(d).Some? && AllReadBoth(es) && AllPlausible(es)
    requires !OtherReady(Selected(d).value.state)
    ensures Selected(RunBoots(d, es)).Some?
    ensures var s, t := Selected(d).value.state, Selected(RunBoots(d, es)).value.state;
            t.activeSlot == s.activeSlot && SameContents(t, s)
  {
    hide UnpackState, PackState;
    if es != [] {
      var n := |es| - 1;
      NotReadyKeepsContentsOnCard(d, es[..n]);
      assert ReadsBoth(es[n]) && Plausible(es[n].write);
      BootAdvances(RunBoots(d, es[..n]), es[n]);
    }
  }

  /** Every valid copy has active slot `a`, and the other slot not ready. */
  ghost predicate AllCopiesStay(d: Disk, a: Byte) {
    forall c: Copy :: RecordIn(d, c).Some? ==>
      RecordIn(d, c).value.activeSlot == a && !OtherReady(RecordIn(d, c).value)
  }

  lemma BootKeepsCopies(d: Disk, e: BootEvent, a: Byte)
    requires AllCopiesStay(d, a) && Plausible(e.write)
    ensures AllCopiesStay(BootWrite(d, e), a)
  {
    hide UnpackState, PackState, BootWrite;
    if Visible(d, e).Some? {
      var chosen := Visible(d, e).value;
      ChosenCopyKept(d, e);
      StaleCopy(d, e);
      forall c: Copy | RecordIn(BootWrite(d, e), c).Some?
        ensures RecordIn(BootWrite(d, e), c).value.activeSlot == a && !OtherReady(RecordIn(BootWrite(d, e), c).value)
      {
        assert c == chosen.copy || c == Other(chosen.copy);
      }
    } else {
      NothingVisible(d, e);
    }
  }

  lemma NothingVisible(d: Disk, e: BootEvent)
    requires Visible(d, e).None?
    ensures BootWrite(d, e) == d
  {
    hide UnpackState, PackState;
  }

  /** A slot that is ready in no valid copy but as the active one is never selected: whatever could not
      be read, and however each write ended. */
  lemma {:induction false} NotReadyNeverSelectedOnCard(d: Disk, es: seq<BootEvent>, a: Byte)
    requires HasRecord(d) && AllCopiesStay(d, a) && AllPlausible(es)
    ensures AllCopiesStay(RunBoots(d, es), a)
    ensures Selected(RunBoots(d, es)).Some? && Selected(RunBoots(d, es)).value.state.activeSlot == a
    ensures forall e: BootEvent :: Visible(RunBoots(d, es), e).Some? ==>
              NextState(Visible(RunBoots(d, es), e).value.state).activeSlot == a
  {
    hide UnpackState, PackState, BootWrite;
    RecordSurvives(d, es);
    if es != [] {
      var n := |es| - 1;
      NotReadyNeverSelectedOnCard(d, es[..n], a);
      BootKeepsCopies(RunBoots(d, es[..n]), es[n], a);
    }
  }
}
