/** The sidecar store of design/image-slot.js: `load`, `save`, `setSlot`. Every callback is one
    step, so that edits, the answer of the first read, the callbacks waiting for it, writes and
    their completions interleave in any order.
 */
module Sidecar {
  import opened Prelude

  /** The value an element keeps for its slot; without `u` it is a framing only. */
  datatype Image = Image(u: Option<string>, s: real, x: real, y: real)

  /** A stored value: an old sidecar holds bare data URLs. */
  datatype Entry = Bare(url: string) | Framed(image: Image)

  type Slots = map<string, Entry>

  predicate Truthy(e: Entry) { e.Framed? || e.url != "" }

  predicate HasImage(m: Image) { m.u.Some? && m.u.value != "" }

  function UrlOf(e: Entry): Option<string> {
    match e
    case Bare(url) => Some(url)
    case Framed(m) => m.u
  }

  /** A framing made before the first read came back takes over the image it finds on disk. */
  function Inherit(e: Entry, stored: Option<Entry>): Entry {
    if e.Framed? && !HasImage(e.image) && stored.Some? && Truthy(stored.value)
    then Framed(e.image.(u := UrlOf(stored.value)))
    else e
  }

  function Lookup(m: Slots, id: string): Option<Entry> {
    if id in m then Some(m[id]) else None
  }

  function Merge(j: Slots, slots: Slots, tombstones: set<string>): Slots {
    map id | id in j.Keys + slots.Keys - tombstones ::
      if id in slots then Inherit(slots[id], Lookup(j, id)) else j[id]
  }

  // ---------------------------------------------------------------- the store as a machine

  /** `answered`: the first read has been answered. `queued`: saves waiting for `load()`.
      `writes`: contents sent to the host and not written yet. `acks`: writes done whose completion
      has not run yet. `file`: the sidecar, if there is one. */
  datatype State = State(
    slots: Slots,
    tombstones: set<string>,
    answered: bool,
    loaded: bool,
    queued: nat,
    saving: bool,
    saveDirty: bool,
    writes: seq<Slots>,
    acks: nat,
    file: Option<Slots>)

  function Start(file: Option<Slots>): State {
    State(map[], {}, false, false, 0, false, false, [], 0, file)
  }

  /** `Answer(ok)` is the answer of the first read: what is in the file, or nothing when there is
      none; not `ok` is a failed request or a text that is not JSON. */
  datatype Event =
    | Edit(id: string, val: Option<Image>)
    | Answer(ok: bool)
    | Settle
    | QueuedSave
    | Land
    | Done

  predicate Enabled(s: State, e: Event) {
    match e
    case Edit(_, _) => true
    case Answer(_) => !s.answered
    case Settle => s.answered && !s.loaded
    case QueuedSave => s.loaded && s.queued > 0
    case Land => s.writes != []
    case Done => s.acks > 0
  }

  function Saved(s: State): State {
    if s.saving then s.(saveDirty := true) else s.(saving := true, writes := s.writes + [s.slots])
  }

  function Edited(s: State, id: string, val: Option<Image>): State {
    if id == "" then s
    else
      var t := if val.Some?
               then s.(slots := s.slots[id := Framed(val.value)], tombstones := s.tombstones - {id})
               else s.(slots := s.slots - {id},
                       tombstones := if s.loaded then s.tombstones else s.tombstones + {id});
      if t.loaded then Saved(t) else t.(queued := t.queued + 1)
  }

  function Answered(s: State, ok: bool): State {
    if !ok then s.(answered := true)
    else if s.file.None? then s.(answered := true, tombstones := {})
    else s.(answered := true, slots := Merge(s.file.value, s.slots, s.tombstones), tombstones := {})
  }

  function Next(s: State, e: Event): State
    requires Enabled(s, e)
  {
    match e
    case Edit(id, val) => Edited(s, id, val)
    case Answer(ok) => Answered(s, ok)
    case Settle => s.(loaded := true)
    case QueuedSave => Saved(s.(queued := s.queued - 1))
    case Land => s.(file := Some(s.writes[0]), writes := s.writes[1..], acks := s.acks + 1)
    case Done =>
      var t := s.(acks := s.acks - 1, saving := false);
      if t.saveDirty then Saved(t.(saveDirty := false)) else t
  }

  // ---------------------------------------------------------------- the store as the code has it

  /** What is merged while the slots in `todo` have not inherited yet. */
  function PartlyMerged(j: Slots, slots: Slots, todo: set<string>): Slots {
    map id | id in j.Keys + slots.Keys ::
      if id !in slots then j[id] else if id in todo then slots[id] else Inherit(slots[id], Lookup(j, id))
  }

  lemma OneLessToDo(j: Slots, slots: Slots, todo: set<string>, k: string)
    requires k in todo && k in slots
    ensures PartlyMerged(j, slots, todo)[k := Inherit(slots[k], Lookup(j, k))] == PartlyMerged(j, slots, todo - {k})
  {
  }

  lemma MergedAtLast(j: Slots, slots: Slots, tombstones: set<string>)
    ensures PartlyMerged(j, slots, {}) - tombstones == Merge(j, slots, tombstones)
  {
  }

  lemma AssignedFirst(j: Slots, slots: Slots)
    ensures j + slots == PartlyMerged(j, slots, slots.Keys)
  {
  }

  /** Object.assign({}, j, slots), the loop that inherits images, and the deletion of what has been
      cleared. */
  method Merged(j: Slots, slots: Slots, tombstones: set<string>) returns (merged: Slots)
    ensures merged == Merge(j, slots, tombstones)
  {
    merged := j + slots;
    var todo := slots.Keys;
    AssignedFirst(j, slots);
    while todo != {}
      invariant todo <= slots.Keys
      invariant merged == PartlyMerged(j, slots, todo)
      decreases |todo|
    {
      var k :| k in todo;
      merged := merged[k := Inherit(slots[k], Lookup(j, k))];
      OneLessToDo(j, slots, todo, k);
      todo := todo - {k};
    }
    merged := merged - tombstones;
    MergedAtLast(j, slots, tombstones);
  }

  class SlotStore {
    var slots: Slots
    var tombstones: set<string>
    var answered: bool
    var loaded: bool
    var queued: nat
    var saving: bool
    var saveDirty: bool
    var writes: seq<Slots>
    var acks: nat
    var file: Option<Slots>

    function View(): State
      reads this
    {
      State(slots, tombstones, answered, loaded, queued, saving, saveDirty, writes, acks, file)
    }

    constructor (onDisk: Option<Slots>)
      ensures View() == Start(onDisk)
    {
      slots, tombstones := map[], {};
      answered, loaded, queued := false, false, 0;
      saving, saveDirty := false, false;
      writes, acks, file := [], 0, onDisk;
    }

    method SetSlot(id: string, val: Option<Image>)
      modifies this
      ensures View() == Next(old(View()), Edit(id, val))
    {
      if id == "" {
        return;
      }
      if val.Some? {
        slots := slots[id := Framed(val.value)];
        tombstones := tombstones - {id};
      } else {
        slots := slots - {id};
        if !loaded {
          tombstones := tombstones + {id};
        }
      }
      if loaded {
        Save();
      } else {
        queued := queued + 1;
      }
    }

    method Save()
      modifies this
      ensures View() == Saved(old(View()))
    {
      if saving {
        saveDirty := true;
        return;
      }
      saving := true;
      writes := writes + [slots];
    }

    /** The merge of the sidecar into what is in memory, entry by entry. */
    method Hydrate(ok: bool)
      requires Enabled(View(), Answer(ok))
      modifies this
      ensures View() == Next(old(View()), Answer(ok))
    {
      answered := true;
      if !ok {
        return;
      }
      if file.Some? {
        slots := Merged(file.value, slots, tombstones);
      }
      tombstones := {};
    }

    method FinishLoad()
      requires Enabled(View(), Settle)
      modifies this
      ensures View() == Next(old(View()), Settle)
    {
      loaded := true;
    }

    method RunQueuedSave()
      requires Enabled(View(), QueuedSave)
      modifies this
      ensures View() == Next(old(View()), QueuedSave)
    {
      queued := queued - 1;
      Save();
    }

    /** The host writes the oldest content it was sent. */
    method WriteLands()
      requires Enabled(View(), Land)
      modifies this
      ensures View() == Next(old(View()), Land)
    {
      file := Some(writes[0]);
      writes := writes[1..];
      acks := acks + 1;
    }

    method WriteDone()
      requires Enabled(View(), Done)
      modifies this
      ensures View() == Next(old(View()), Done)
    {
      acks := acks - 1;
      saving := false;
      if saveDirty {
        saveDirty := false;
        Save();
      }
    }
  }

  // ---------------------------------------------------------------- runs

  ghost predicate Runs(s: State, es: seq<Event>)
    decreases |es|, 0
  {
    es == [] || (Runs(s, es[..|es| - 1]) && Enabled(After(s, es[..|es| - 1]), es[|es| - 1]))
  }

  ghost function After(s: State, es: seq<Event>): State
    requires Runs(s, es)
    decreases |es|, 1
  {
    if es == [] then s else Next(After(s, es[..|es| - 1]), es[|es| - 1])
  }

  ghost predicate IsEdit(e: Event) { e.Edit? && e.id != "" }

  ghost predicate HasEdit(es: seq<Event>) {
    exists i :: 0 <= i < |es| && IsEdit(es[i])
  }

  // ---------------------------------------------------------------- writes

  /** The slots are on disk, or something that is still to happen will bring them there. */
  ghost predicate OnItsWay(s: State) {
    || s.queued > 0
    || (s.loaded && s.saveDirty)
    || (s.loaded && s.writes != [] && s.writes[0] == s.slots)
    || (s.loaded && s.writes == [] && s.file == Some(s.slots))
  }

  /** `edited`: some slot has been edited. */
  ghost predicate Orderly(s: State, edited: bool) {
    && |s.writes| + s.acks == (if s.saving then 1 else 0)
    && (s.saveDirty ==> s.saving)
    && (s.loaded ==> s.answered)
    && (!s.loaded ==> !s.saving)
    && (!edited ==> s.queued == 0 && !s.saving)
    && s.slots.Keys !! s.tombstones
    && (edited ==> OnItsWay(s))
  }

  lemma StepIsOrderly(s: State, e: Event, edited: bool)
    requires Orderly(s, edited) && Enabled(s, e)
    ensures Orderly(Next(s, e), edited || IsEdit(e))
  {
  }

  lemma HasEditGrows(es: seq<Event>, e: Event)
    ensures HasEdit(es + [e]) == (HasEdit(es) || IsEdit(e))
  {
    var all := es + [e];
    if HasEdit(es) {
      var i :| 0 <= i < |es| && IsEdit(es[i]);
      assert IsEdit(all[i]);
    }
    if IsEdit(e) {
      assert IsEdit(all[|es|]);
    }
  }

  lemma {:induction false} RunIsOrderly(s: State, es: seq<Event>, edited: bool)
    requires Orderly(s, edited) && Runs(s, es)
    ensures Orderly(After(s, es), edited || HasEdit(es))
  {
    if es != [] {
      var n := |es| - 1;
      RunIsOrderly(s, es[..n], edited);
      StepIsOrderly(After(s, es[..n]), es[n], edited || HasEdit(es[..n]));
      HasEditGrows(es[..n], es[n]);
      assert es == es[..n] + [es[n]];
    }
  }

  ghost predicate Quiet(s: State) { !s.saving && s.queued == 0 }

  /** In every interleaving at most one write is under way; a deleted slot is never also a kept
      one; and once an edit has been made the sidecar holds the slots whenever no save is running
      or waiting. */
  lemma SidecarCatchesUp(file: Option<Slots>, es: seq<Event>)
    requires Runs(Start(file), es)
    ensures var s := After(Start(file), es);
      && |s.writes| + s.acks <= 1
      && s.slots.Keys !! s.tombstones
      && (HasEdit(es) && Quiet(s) ==> s.loaded && s.file == Some(s.slots))
  {
    RunIsOrderly(Start(file), es, false);
  }

  /** The store comes to rest: without new edits it can take at most `Pending` further steps. */
  function Pending(s: State): nat {
    (if s.answered then 0 else 1) + (if s.loaded then 0 else 1)
    + 3 * s.queued + 2 * |s.writes| + s.acks + (if s.saveDirty then 2 else 0)
  }

  lemma StepsRunOut(s: State, e: Event, edited: bool)
    requires Orderly(s, edited) && Enabled(s, e) && !e.Edit?
    ensures Pending(Next(s, e)) < Pending(s)
  {
  }

  ghost predicate NoEdits(es: seq<Event>) {
    forall i :: 0 <= i < |es| ==> !es[i].Edit?
  }

  lemma {:induction false} RestIsReached(s: State, es: seq<Event>, edited: bool)
    requires Orderly(s, edited) && Runs(s, es) && NoEdits(es)
    ensures Orderly(After(s, es), edited)
    ensures |es| + Pending(After(s, es)) <= Pending(s)
  {
    if es != [] {
      var n := |es| - 1;
      RestIsReached(s, es[..n], edited);
      StepIsOrderly(After(s, es[..n]), es[n], edited);
      StepsRunOut(After(s, es[..n]), es[n], edited);
    }
  }

  ghost predicate Stuck(s: State) {
    forall e: Event :: Enabled(s, e) ==> e.Edit?
  }

  lemma StuckIsSaved(s: State)
    requires Orderly(s, true) && Stuck(s)
    ensures s.file == Some(s.slots)
  {
    assert !Enabled(s, Answer(true)) && !Enabled(s, Settle) && !Enabled(s, QueuedSave);
    assert !Enabled(s, Land) && !Enabled(s, Done);
  }

  /** After an edit, whatever the order of what is still to happen, the store comes to rest within
      `Pending` steps, and it rests only with the sidecar equal to the slots. */
  lemma EveryEditReachesDisk(file: Option<Slots>, es: seq<Event>, more: seq<Event>)
    requires Runs(Start(file), es) && HasEdit(es)
    requires var s := After(Start(file), es); Runs(s, more) && NoEdits(more)
    ensures var s := After(Start(file), es);
      && |more| <= Pending(s)
      && (Stuck(After(s, more)) ==> After(s, more).file == Some(After(s, more).slots))
  {
    var s := After(Start(file), es);
    RunIsOrderly(Start(file), es, false);
    RestIsReached(s, more, true);
    if Stuck(After(s, more)) {
      StuckIsSaved(After(s, more));
    }
  }

  // ---------------------------------------------------------------- hydration

  datatype Last = Untouched | Set(image: Image) | Cleared

  function LastOf(e: Event): Last
    requires e.Edit?
  {
    if e.val.Some? then Set(e.val.value) else Cleared
  }

  /** What the last edit of a slot made of it. */
  ghost function LastEdit(es: seq<Event>, id: string): Last {
    if es == [] then Untouched
    else
      var e := es[|es| - 1];
      if IsEdit(e) && e.id == id then LastOf(e) else LastEdit(es[..|es| - 1], id)
  }

  /** What edits alone leave in a slot that held `was`. */
  function Left(last: Last, was: Option<Entry>): Option<Entry> {
    match last
    case Untouched => was
    case Set(m) => Some(Framed(m))
    case Cleared => None
  }

  /** Up to the answer the store keeps just the edits, remembers the deletions and leaves the
      sidecar alone. */
  ghost predicate Waiting(s: State, file: Option<Slots>, id: string, last: Last) {
    && !s.answered && !s.loaded && !s.saving && s.writes == [] && s.acks == 0
    && s.file == file
    && Lookup(s.slots, id) == Left(last, None)
    && (id in s.tombstones <==> last.Cleared?)
  }

  /** How many edits there were. */
  ghost function Edits(es: seq<Event>): nat {
    if es == [] then 0 else Edits(es[..|es| - 1]) + (if IsEdit(es[|es| - 1]) then 1 else 0)
  }

  lemma StepQueuesSave(s: State, e: Event)
    requires Enabled(s, e) && !Next(s, e).loaded
    ensures !s.loaded && Next(s, e).queued == s.queued + (if IsEdit(e) then 1 else 0)
  {
  }

  /** Until the store has loaded each edit has queued one save, and none has run. */
  lemma {:induction false} EachEditQueuesSave(file: Option<Slots>, es: seq<Event>)
    requires Runs(Start(file), es) && !After(Start(file), es).loaded
    ensures After(Start(file), es).queued == Edits(es)
  {
    if es != [] {
      StepQueuesSave(After(Start(file), es[..|es| - 1]), es[|es| - 1]);
      EachEditQueuesSave(file, es[..|es| - 1]);
    }
  }

  lemma AnswerIsKept(s: State, e: Event)
    requires Enabled(s, e)
    ensures s.answered ==> Next(s, e).answered
  {
  }

  lemma {:induction false} EditsWait(file: Option<Slots>, es: seq<Event>, id: string)
    requires Runs(Start(file), es) && !After(Start(file), es).answered
    ensures Waiting(After(Start(file), es), file, id, LastEdit(es, id))
  {
    if es != [] {
      var n := |es| - 1;
      AnswerIsKept(After(Start(file), es[..n]), es[n]);
      EditsWait(file, es[..n], id);
    }
  }

  lemma StepChangesSlot(s: State, e: Event, id: string)
    requires s.answered && Enabled(s, e)
    ensures Next(s, e).answered
    ensures Lookup(Next(s, e).slots, id) ==
            Left(if IsEdit(e) && e.id == id then LastOf(e) else Untouched, Lookup(s.slots, id))
  {
  }

  /** Once the read has been answered only edits change a slot. */
  lemma {:induction false} OnlyEditsChangeSlots(s: State, es: seq<Event>, id: string)
    requires s.answered && Runs(s, es)
    ensures After(s, es).answered
    ensures Lookup(After(s, es).slots, id) == Left(LastEdit(es, id), Lookup(s.slots, id))
  {
    if es != [] {
      var n := |es| - 1;
      OnlyEditsChangeSlots(s, es[..n], id);
      StepChangesSlot(After(s, es[..n]), es[n], id);
    }
  }

  /** What hydration makes of a slot: the stored entry if nobody touched it, else the last edit,
      which takes over the stored image if it is a framing only. */
  function Hydrated(last: Last, stored: Option<Entry>): Option<Entry> {
    match last
    case Untouched => stored
    case Set(m) => Some(Inherit(Framed(m), stored))
    case Cleared => None
  }

  function OnDisk(file: Option<Slots>, id: string): Option<Entry> {
    if file.None? then None else Lookup(file.value, id)
  }

  lemma AnswerHydrates(file: Option<Slots>, before: seq<Event>, id: string)
    requires Runs(Start(file), before) && !After(Start(file), before).answered
    ensures Lookup(Answered(After(Start(file), before), true).slots, id)
         == Hydrated(LastEdit(before, id), OnDisk(file, id))
  {
    EditsWait(file, before, id);
  }

  /** What a slot is to hold in the end: its last edit of all; one made before the answer that has
      no image takes that of the stored entry, if there is one; untouched it keeps the stored entry. */
  ghost function Expected(before: Last, stored: Option<Entry>, after: Last): Option<Entry> {
    match after
    case Set(m) => Some(Framed(m))
    case Cleared => None
    case Untouched =>
      match before
      case Untouched => stored
      case Cleared => None
      case Set(m) =>
        if m.u.Some? && m.u.value != "" then Some(Framed(m))
        else match stored
          case None => Some(Framed(m))
          case Some(Bare(url)) => Some(Framed(if url == "" then m else Image(Some(url), m.s, m.x, m.y)))
          case Some(Framed(f)) => Some(Framed(Image(f.u, m.s, m.x, m.y)))
  }

  lemma ExpectedIsLeft(before: Last, stored: Option<Entry>, after: Last)
    ensures Left(after, Hydrated(before, stored)) == Expected(before, stored, after)
  {
  }

  /** The entry of a slot in a map that may be missing. */
  ghost predicate Has(slots: Option<Slots>, id: string, e: Option<Entry>) {
    if slots.Some? && id in slots.value then e == Some(slots.value[id]) else e == None
  }

  /** Whatever came before the answer of the first read and after it: a slot holds its last edit;
      one last edited before the answer has inherited a stored image where it had none; an
      untouched one holds what the sidecar held. Once the store is at rest after an edit the
      sidecar says the same. */
  lemma HydrationLosesNothing(file: Option<Slots>, before: seq<Event>, after: seq<Event>,
                              id: string, stored: Option<Entry>)
    requires Runs(Start(file), before) && !After(Start(file), before).answered
    requires Runs(Answered(After(Start(file), before), true), after)
    requires Has(file, id, stored)
    ensures var t := After(Answered(After(Start(file), before), true), after);
      var kept := Expected(LastEdit(before, id), stored, LastEdit(after, id));
      && Has(Some(t.slots), id, kept)
      && ((HasEdit(before) || HasEdit(after)) && Quiet(t) ==> Has(t.file, id, kept))
  {
    var s := After(Start(file), before);
    AnswerHydrates(file, before, id);
    OnlyEditsChangeSlots(Answered(s, true), after, id);
    ExpectedIsLeft(LastEdit(before, id), stored, LastEdit(after, id));
    RunIsOrderly(Start(file), before, false);
    StepIsOrderly(s, Answer(true), HasEdit(before));
    RunIsOrderly(Answered(s, true), after, HasEdit(before));
  }

  ghost predicate EditOf(e: Event, id: string) { e.Edit? && e.id == id }

  ghost predicate NoEditFrom(es: seq<Event>, id: string, from: nat) {
    forall i :: from <= i < |es| ==> !EditOf(es[i], id)
  }

  /** The last edit is that of the last place at which the slot was edited. */
  lemma {:induction false} LastEditMeans(es: seq<Event>, id: string)
    requires id != ""
    ensures LastEdit(es, id) == Untouched <==> NoEditFrom(es, id, 0)
    ensures forall i, val :: 0 <= i < |es| && es[i] == Edit(id, val) && NoEditFrom(es, id, i + 1) ==>
      LastEdit(es, id) == if val.Some? then Set(val.value) else Cleared
  {
    if es != [] {
      var n := |es| - 1;
      LastEditMeans(es[..n], id);
      forall i | 0 <= i <= n && !EditOf(es[n], id) ensures NoEditFrom(es, id, i) == NoEditFrom(es[..n], id, i) {
        assert forall j :: 0 <= j < n ==> es[..n][j] == es[j];
      }
    }
  }

  /** Exactly when an untouched slot holds after the answer what the sidecar holds for it: the read
      has succeeded or there is nothing to hold. */
  lemma WhenStoredEntryIsKept(file: Option<Slots>, before: seq<Event>, id: string, ok: bool)
    requires Runs(Start(file), before) && !After(Start(file), before).answered && LastEdit(before, id).Untouched?
    ensures Lookup(Answered(After(Start(file), before), ok).slots, id) == OnDisk(file, id) <==>
            ok || OnDisk(file, id) == None
  {
    EditsWait(file, before, id);
    AnswerHydrates(file, before, id);
  }

  lemma {:induction false} EditedIsTouched(es: seq<Event>, id: string, val: Option<Image>)
    requires id != "" && Edit(id, val) in es
    ensures !LastEdit(es, id).Untouched?
  {
    var n := |es| - 1;
    if es[n] != Edit(id, val) { EditedIsTouched(es[..n], id, val); }
  }

  function Shown(e: Option<Entry>): Option<string> {
    if e.Some? then UrlOf(e.value) else None
  }

  /** Exactly when a stored image that was cleared before the answer is back after it: the slot was
      set again before the answer, to that very image or, like a framing, to none. */
  lemma ClearedImageComesBack(file: Option<Slots>, before: seq<Event>, id: string, url: string)
    requires Runs(Start(file), before) && !After(Start(file), before).answered
    requires id != "" && Edit(id, None) in before && url != "" && Shown(OnDisk(file, id)) == Some(url)
    ensures var now, last := Lookup(Answered(After(Start(file), before), true).slots, id), LastEdit(before, id);
      && (Shown(now) == Some(url) <==> last.Set? && (!HasImage(last.image) || last.image.u == Some(url)))
      && (last.Set? && !HasImage(last.image) ==> now == Some(Framed(last.image.(u := Some(url)))))
  {
    AnswerHydrates(file, before, id);
    EditedIsTouched(before, id, None);
  }

  /** After a failed read the store goes on with the edits alone: an untouched slot is empty, and
      once the store is at rest after an edit, whatever the sidecar held for it is gone. */
  lemma FailedReadForgetsSidecar(file: Option<Slots>, before: seq<Event>, after: seq<Event>, id: string)
    requires Runs(Start(file), before) && !After(Start(file), before).answered
    requires Runs(Answered(After(Start(file), before), false), after)
    ensures var t := After(Answered(After(Start(file), before), false), after);
      var kept := Left(LastEdit(after, id), Left(LastEdit(before, id), None));
      && Lookup(t.slots, id) == kept
      && ((HasEdit(before) || HasEdit(after)) && Quiet(t) ==> OnDisk(t.file, id) == kept)
  {
    var s := After(Start(file), before);
    EditsWait(file, before, id);
    OnlyEditsChangeSlots(Answered(s, false), after, id);
    RunIsOrderly(Start(file), before, false);
    StepIsOrderly(s, Answer(false), HasEdit(before));
    RunIsOrderly(Answered(s, false), after, HasEdit(before));
  }

  // ---------------------------------------------------------------- two sessions

  lemma RunOn(s: State, es: seq<Event>, e: Event, es': seq<Event>)
    requires Runs(s, es) && Enabled(After(s, es), e) && es' == es + [e]
    ensures Runs(s, es') && After(s, es') == Next(After(s, es), e)
  {
    assert es'[..|es|] == es;
  }

  ghost predicate NoEditOf(es: seq<Event>, id: string) {
    forall i :: 0 <= i < |es| && es[i].Edit? ==> es[i].id != id
  }

  /** The first read fails, another slot is edited, and the stored image is gone from the sidecar. */
  lemma FailedReadLosesImage(image: Image) returns (es: seq<Event>)
    ensures var s := Start(Some(map["a" := Bare("x")]));
      Runs(s, es) && NoEditOf(es, "a") && OnDisk(After(s, es).file, "a") == None
  {
    var s := Start(Some(map["a" := Bare("x")]));
    var edit := Edit("b", Some(image));
    es := [Answer(false), Settle, edit, Land];
    RunOn(s, [], es[0], es[..1]);
    RunOn(s, es[..1], es[1], es[..2]);
    RunOn(s, es[..2], es[2], es[..3]);
    RunOn(s, es[..3], es[3], es);
    assert "a"[0] != "b"[0];
  }

  /** An image is cleared and framed before the first read is answered, and it is back. */
  lemma FramedAgainItIsBack(framing: Image)
    requires framing.u.None?
    ensures var s := Start(Some(map["a" := Bare("x")]));
      var es := [Edit("a", None), Edit("a", Some(framing))];
      Runs(s, es) && Lookup(Answered(After(s, es), true).slots, "a") == Some(Framed(framing.(u := Some("x"))))
  {
    var s := Start(Some(map["a" := Bare("x")]));
    var es := [Edit("a", None), Edit("a", Some(framing))];
    RunOn(s, [], es[0], es[..1]);
    RunOn(s, es[..1], es[1], es);
    ClearedImageComesBack(s.file, es, "a", "x");
  }
}
