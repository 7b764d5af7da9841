/** The shared global tree and its references (conf.c:2393-2396, 4516-4803). */
module GlobalTree {
  import opened Numbers
  import opened UpdateDetection

  /** A top node; each new one has a number of its own. */
  type Root = nat

  type Stored = Option<seq<FileInfo>>

  /** What update_r finds when it looks at the files. */
  datatype World =
    /** A name could not be turned into a path. */
    | BadName
    /**
     The list of names is that in `configs`; when the files are reread, `loads` says whether loading and hooks
     succeed.
     */
    | Files(configs: string, user: UserFile, stat: Stat, loads: bool)

  /**
   * The roots in memory with their reference counts, those freed in the order of freeing,
   * the global slot and what is stored about its files. `wild` notes a touch of a root
   * that is not in memory.
   */
  datatype State = State(
    live: map<Root, nat>,
    freed: seq<Root>,
    slot: Option<Root>,
    stored: Stored,
    next: Root,
    wild: bool)

  const Initial := State(map[], [], None, None, 0, false)

  /** snd_config_delete on a top node. */
  function Deleted(s: State, r: Root): State {
    if r !in s.live then s.(freed := s.freed + [r], wild := true)
    else if s.live[r] > 0 then s.(live := s.live[r := s.live[r] - 1])
    else s.(live := s.live - {r}, freed := s.freed + [r])
  }

  function Referenced(s: State, r: Root): State {
    if r in s.live then s.(live := s.live[r := s.live[r] + 1]) else s.(wild := true)
  }

  /** The slot gives up its root. */
  function Dropped(s: State): State {
    match s.slot
    case None => s.(stored := None)
    case Some(r) => Deleted(s.(slot := None, stored := None), r)
  }

  function Renewed(s: State, loads: bool, local: Stored): State {
    var t := Dropped(s);
    var t' := t.(live := t.live[t.next := 0], next := t.next + 1);
    if loads then t'.(slot := Some(t.next), stored := local) else Deleted(t', t.next)
  }

  /** The tree is up to date. */
  predicate Current(stored: Stored, w: World) {
    && w.Files? && Names(w.configs) != []
    && stored == Some(CurrentFiles(w.configs, w.user, w.stat))
  }

  function Local(w: World): Stored
    requires w.Files?
  {
    if Names(w.configs) == [] then None else Some(CurrentFiles(w.configs, w.user, w.stat))
  }

  function Updated(s: State, w: World): State {
    if w.BadName? then Dropped(s)
    else if Current(s.stored, w) then s
    else Renewed(s, w.loads, Local(w))
  }

  predicate UpdateFails(s: State, w: World) {
    w.BadName? || (!Current(s.stored, w) && !w.loads)
  }

  datatype UpdateResult = UpToDate | Reread | Failed | NoDevice

  /** The globals snd_config and snd_config_global_update, and the memory of top nodes. */
  class Shared {
    var live: map<Root, nat>
    var freed: seq<Root>
    var slot: Option<Root>
    var stored: Stored
    var next: Root
    var wild: bool

    function Abstract(): State
      reads this
    {
      State(live, freed, slot, stored, next, wild)
    }

    constructor ()
      ensures Abstract() == Initial
    {
      live, freed, slot, stored, next, wild := map[], [], None, None, 0, false;
    }

    method Delete(r: Root)
      modifies this
      ensures Abstract() == Deleted(old(Abstract()), r)
    {
      if r !in live {
        wild, freed := true, freed + [r];
        return;
      }
      if live[r] > 0 {
        live := live[r := live[r] - 1];
        return;
      }
      live, freed := live - {r}, freed + [r];
    }

    method UpdateR(w: World) returns (result: UpdateResult)
      modifies this
      ensures Abstract() == Updated(old(Abstract()), w)
      ensures result == Failed <==> UpdateFails(old(Abstract()), w)
      ensures result == UpToDate <==> Current(old(stored), w)
      ensures result != NoDevice
    {
      var top := slot;
      if w.BadName? {
        slot, stored := None, None;
        if top.Some? {
          Delete(top.value);
        }
        return Failed;
      }
      var keep, local := Unchanged(w.configs, stored, w.user, w.stat);
      if keep {
        return UpToDate;
      }
      slot, stored := None, None;
      if top.Some? {
        Delete(top.value);
      }
      var top' := next;
      live, next := live[next := 0], next + 1;
      if !w.loads {
        Delete(top');
        return Failed;
      }
      slot, stored := Some(top'), local;
      return Reread;
    }

    /** snd_config_update_ref; without a place for the handle no reference is taken. */
    method UpdateRef(w: World, want: bool) returns (result: UpdateResult, top: Option<Root>)
      modifies this
      ensures var s := Updated(old(Abstract()), w);
              && top == (if want && !UpdateFails(old(Abstract()), w) then s.slot else None)
              && Abstract() == (if top.Some? then Referenced(s, top.value) else s)
      ensures result == NoDevice <==> !UpdateFails(old(Abstract()), w) && Updated(old(Abstract()), w).slot == None
    {
      top := None;
      result := UpdateR(w);
      if result != Failed {
        if slot.Some? {
          if want {
            Ref(slot.value);
            top := slot;
          }
        } else {
          result := NoDevice;
        }
      }
    }

    method Ref(r: Root)
      modifies this
      ensures Abstract() == Referenced(old(Abstract()), r)
    {
      if r in live {
        live := live[r := live[r] + 1];
      } else {
        wild := true;
      }
    }

    method FreeGlobal()
      modifies this
      ensures Abstract() == Dropped(old(Abstract()))
    {
      if slot.Some? {
        var r := slot.value;
        slot, stored := None, None;
        Delete(r);
      }
      stored := None;
    }
  }

  // ----- every run

  datatype Call = Update(w: World) | UpdateRef(w: World, want: bool) | Ref(r: Root) | Unref(r: Root) | FreeGlobal

  /** The root that a call hands out. */
  function Handed(s: State, c: Call): Option<Root> {
    match c
    case UpdateRef(w, want) => if want && !UpdateFails(s, w) then Updated(s, w).slot else None
    case Ref(r) => Some(r)
    case _ => None
  }

  function Step(s: State, c: Call): State {
    match c
    case Update(w) => Updated(s, w)
    case UpdateRef(w, want) =>
      var t := Updated(s, w);
      if want && !UpdateFails(s, w) && t.slot.Some? then Referenced(t, t.slot.value) else t
    case Ref(r) => Referenced(s, r)
    case Unref(r) => Deleted(s, r)
    case FreeGlobal => Dropped(s)
  }

  function Run(calls: seq<Call>): State {
    if calls == [] then Initial else Step(Run(calls[..|calls| - 1]), calls[|calls| - 1])
  }

  /** How often a root was handed out, less how often it was given back. */
  function Held(calls: seq<Call>, r: Root): int {
    if calls == [] then 0
    else
      var before, c := calls[..|calls| - 1], calls[|calls| - 1];
      Held(before, r)
      + (if Handed(Run(before), c) == Some(r) then 1 else 0)
      - (if c == Unref(r) then 1 else 0)
  }

  /** Nobody references a root that neither the slot shows nor anybody holds, or gives back what is not held. */
  ghost predicate Disciplined(calls: seq<Call>) {
    forall i :: 0 <= i < |calls| ==> Holds(calls[..i], calls[i])
  }

  predicate Holds(before: seq<Call>, c: Call) {
    match c
    case Ref(r) => Held(before, r) + InSlot(Run(before), r) > 0
    case Unref(r) => Held(before, r) > 0
    case _ => true
  }

  function InSlot(s: State, r: Root): nat {
    if s.slot == Some(r) then 1 else 0
  }

  /** What holds of a state in which `held` tells how many references each root has. */
  ghost predicate Balanced(s: State, held: Root -> int) {
    && !s.wild
    && (forall r: Root :: held(r) >= 0)
    && (forall r: Root :: r in s.live <==> held(r) + InSlot(s, r) > 0)
    && (forall r: Root | r in s.live :: s.live[r] + 1 == held(r) + InSlot(s, r))
    && (forall r: Root | r in s.live :: r < s.next)
    && Once(s.freed)
    && (forall r: Root :: r in s.freed <==> r < s.next && r !in s.live)
    && (s.stored.Some? ==> s.slot.Some?)
  }

  ghost predicate Once(roots: seq<Root>) {
    forall i, j :: 0 <= i < j < |roots| ==> roots[i] != roots[j]
  }

  /** One reference of r is given up, by a holder or by the slot. */
  lemma DeletedKeeps(s: State, held: Root -> int, r: Root, t: State, held': Root -> int)
    requires Balanced(s, held) && held(r) + InSlot(s, r) > 0
    requires t.live == s.live && t.freed == s.freed && t.next == s.next && t.wild == s.wild
    requires t.stored.Some? ==> t.slot.Some?
    requires forall q: Root :: held'(q) >= 0
    requires forall q: Root :: held'(q) + InSlot(t, q) == held(q) + InSlot(s, q) - if q == r then 1 else 0
    ensures Balanced(Deleted(t, r), held')
  {
  }

  lemma DroppedKeeps(s: State, held: Root -> int)
    requires Balanced(s, held)
    ensures Balanced(Dropped(s), held) && Dropped(s).slot == None
    ensures Dropped(s).next == s.next
  {
    hide Balanced;
    match s.slot
    case None => NoSlot(s, held);
    case Some(r) =>
      HeldEnough(s, held);
      DeletedKeeps(s, held, r, s.(slot := None, stored := None), held);
  }

  lemma NoSlot(s: State, held: Root -> int)
    requires Balanced(s, held) && s.slot == None
    ensures Balanced(s.(stored := None), held)
  {
  }

  lemma HeldEnough(s: State, held: Root -> int)
    requires Balanced(s, held)
    ensures forall r: Root :: held(r) >= 0
  {
  }

  lemma NewRoot(t: State, held: Root -> int, local: Stored)
    requires Balanced(t, held) && t.slot == None
    ensures Balanced(t.(live := t.live[t.next := 0], next := t.next + 1, slot := Some(t.next), stored := local), held)
  {
    assert t.next !in t.live && t.next !in t.freed;
  }

  lemma RenewedKeeps(s: State, held: Root -> int, loads: bool, local: Stored)
    requires Balanced(s, held)
    ensures Balanced(Renewed(s, loads, local), held)
    ensures Renewed(s, loads, local).slot.Some? <==> loads
  {
    hide Dropped, Balanced;
    DroppedKeeps(s, held);
    var t := Dropped(s);
    var t' := t.(live := t.live[t.next := 0], next := t.next + 1);
    var t'' := t'.(slot := Some(t.next), stored := local);
    NewRoot(t, held, local);
    if !loads {
      HeldEnough(s, held);
      SlotStored(t, held);
      DeletedKeeps(t'', held, t.next, t', held);
    }
  }

  lemma UpdatedKeeps(s: State, held: Root -> int, w: World)
    requires Balanced(s, held)
    ensures Balanced(Updated(s, w), held)
    ensures !UpdateFails(s, w) ==> Updated(s, w).slot.Some?
  {
    hide Names, CurrentFiles, Renewed, Dropped;
    if w.BadName? {
      DroppedKeeps(s, held);
    } else if !Current(s.stored, w) {
      RenewedKeeps(s, held, w.loads, Local(w));
    }
  }

  lemma ReferencedKeeps(s: State, held: Root -> int, r: Root, held': Root -> int)
    requires Balanced(s, held) && held(r) + InSlot(s, r) > 0
    requires forall q: Root :: held'(q) == held(q) + if q == r then 1 else 0
    ensures Balanced(Referenced(s, r), held')
  {
  }

  function HeldIn(calls: seq<Call>): Root -> int {
    (r: Root) => Held(calls, r)
  }

  /** In every disciplined run, whatever the files do in between, the state is balanced. */
  lemma {:induction false} RunBalanced(calls: seq<Call>)
    requires Disciplined(calls)
    ensures Balanced(Run(calls), HeldIn(calls))
  {
    if calls != [] {
      var n := |calls| - 1;
      var before := calls[..n];
      assert forall i :: 0 <= i < n ==> before[..i] == calls[..i];
      RunBalanced(before);
      assert Holds(calls[..n], calls[n]);
      StepBalanced(calls);
    }
  }

  lemma StepBalanced(calls: seq<Call>)
    requires calls != [] && Balanced(Run(calls[..|calls| - 1]), HeldIn(calls[..|calls| - 1]))
    requires Holds(calls[..|calls| - 1], calls[|calls| - 1])
    ensures Balanced(Run(calls), HeldIn(calls))
  {
    hide Balanced, Updated, Dropped, Deleted, Referenced;
    var before, c := calls[..|calls| - 1], calls[|calls| - 1];
    var s, held := Run(before), HeldIn(before);
    HeldEnough(s, held);
    match c
    case Update(w) =>
      UpdatedKeeps(s, held, w);
      SameHeld(Updated(s, w), held, HeldIn(calls));
    case UpdateRef(w, want) =>
      UpdatedKeeps(s, held, w);
      var t := Updated(s, w);
      if want && !UpdateFails(s, w) {
        ReferencedKeeps(t, held, t.slot.value, HeldIn(calls));
      } else {
        SameHeld(t, held, HeldIn(calls));
      }
    case Ref(r) => ReferencedKeeps(s, held, r, HeldIn(calls));
    case Unref(r) =>
      SlotStored(s, held);
      assert forall q: Root :: HeldIn(calls)(q) == held(q) - if q == r then 1 else 0;
      DeletedKeeps(s, held, r, s, HeldIn(calls));
    case FreeGlobal =>
      DroppedKeeps(s, held);
      SameHeld(Dropped(s), held, HeldIn(calls));
  }

  lemma SlotStored(s: State, held: Root -> int)
    requires Balanced(s, held)
    ensures s.stored.Some? ==> s.slot.Some?
  {
  }

  lemma SameHeld(s: State, held: Root -> int, held': Root -> int)
    requires Balanced(s, held) && forall r: Root :: held'(r) == held(r)
    ensures Balanced(s, held')
  {
  }

  /**
   * In every disciplined run no root that is gone is touched, no root is freed twice, and
   * a root is freed exactly when the slot has dropped it and no holder is left.
   */
  lemma ReferenceSafety(calls: seq<Call>)
    requires Disciplined(calls)
    ensures var s := Run(calls);
            && !s.wild && Once(s.freed)
            && (forall r: Root :: r in s.freed <==> r < s.next && s.slot != Some(r) && Held(calls, r) == 0)
            && (forall r: Root :: r in s.live <==> s.slot == Some(r) || Held(calls, r) > 0)
  {
    RunBalanced(calls);
    var s := Run(calls);
    assert forall r: Root :: HeldIn(calls)(r) == Held(calls, r);
  }

  /** Update_ref never finds the slot empty after an update that succeeded. */
  lemma NeverNoDevice(calls: seq<Call>, w: World)
    requires Disciplined(calls) && !UpdateFails(Run(calls), w)
    ensures Updated(Run(calls), w).slot.Some?
  {
    RunBalanced(calls);
    UpdatedKeeps(Run(calls), HeldIn(calls), w);
  }

  /** Giving back one reference too many frees the tree that the slot still shows. */
  lemma UndisciplinedDangles(w: World)
    requires w.Files? && w.loads && Names(w.configs) != []
    ensures var s := Run([Update(w), Unref(0)]); s.slot == Some(0) && 0 in s.freed
    ensures Run([Update(w), Unref(0), FreeGlobal]).wild
  {
    var a, b, c := [Update(w)], [Update(w), Unref(0)], [Update(w), Unref(0), FreeGlobal];
    assert a[..0] == [] && b[..1] == a && c[..2] == b;
    var s1 := Run(a);
    assert s1 == Step(Run([]), Update(w));
    assert s1 == Renewed(Initial, true, Local(w));
    var s2 := Run(b);
    assert s2 == Deleted(s1, 0);
    assert Run(c) == Dropped(s2);
  }
}
