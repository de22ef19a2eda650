/**
 The dormitory: a registry of rooms by room number, in the order the rooms
 were first registered, and the reports drawn from it.
 */
module Dorms {
  import opened Dicts
  import opened Rooms

  /** The number of keys every room should have, whatever it was registered with. */
  const FullSupply := 4

  datatype Dorm = Dorm(rooms: Dict<RoomId, Room>)

  /** The registry a new dormitory starts from when there is no saved state to load. */
  function Empty(): (d: Dorm)
    ensures |d.rooms| == 0 && forall id :: !HasKey(d.rooms, id)
    ensures Consistent(d)
  {
    Dorm([])
  }

  /** Room numbers are unique, and so are resident names within each room. */
  ghost predicate Unique(d: Dorm) {
    && Valid(d.rooms)
    && forall id :: HasKey(d.rooms, id) ==> Valid(Get(d.rooms, id).residents)
  }

  /** Moreover every room is filed under its own number and holds at most two residents. */
  ghost predicate Consistent(d: Dorm) {
    && Unique(d)
    && forall id :: HasKey(d.rooms, id) ==> Get(d.rooms, id).number == id && WellFormed(Get(d.rooms, id))
  }

  /**
   Register a fresh room with `numKeys` keys and no residents. A room
   already filed under `id` is replaced, keeping its place in the order.
   */
  function AddRoom(d: Dorm, id: RoomId, numKeys: int := DefaultKeys): (d': Dorm)
    ensures HasKey(d'.rooms, id)
    ensures Get(d'.rooms, id).number == id
    ensures Get(d'.rooms, id).numKeys == numKeys
    ensures Get(d'.rooms, id).residents == []
    ensures AgreeExcept(d.rooms, d'.rooms, id)
    ensures HasKey(d.rooms, id) ==> Keys(d'.rooms) == Keys(d.rooms)
    ensures !HasKey(d.rooms, id) ==> Keys(d'.rooms) == Keys(d.rooms) + [id]
    ensures Consistent(d) ==> Consistent(d')
  {
    Dorm(Put(d.rooms, id, NewRoom(id, numKeys)))
  }

  /** The room filed under `id`, or `RoomNotFound`. */
  function GetRoom(d: Dorm, id: RoomId): (res: Result<Room>)
    ensures res.Ok? <==> HasKey(d.rooms, id)
    ensures res.Err? ==> res.error == RoomNotFound
    ensures res.Ok? ==> res.value == Get(d.rooms, id)
    ensures res.Ok? && Consistent(d) ==> res.value.number == id && WellFormed(res.value)
  {
    if HasKey(d.rooms, id) then Ok(Get(d.rooms, id)) else Err(RoomNotFound)
  }

  /**
   Apply a room operation to the room filed under `id`, as the interface's
   handlers do. An unknown room is refused with `RoomNotFound`; for a loss
   report the handler then refuses an unknown key type with
   `InvalidKeyType`, before the room looks for the resident; a refusal from
   the room is passed on; on success the updated room takes the old one's
   place and nothing else changes.
   */
  function ApplyAt(d: Dorm, id: RoomId, op: RoomOp): (res: Result<Dorm>)
    ensures !HasKey(d.rooms, id) ==> res == Err(RoomNotFound)
    ensures HasKey(d.rooms, id) && op.KeyLossOp? && !KnownKeyType(op.keyType) ==>
      res == Err(InvalidKeyType)
    ensures HasKey(d.rooms, id) && !(op.KeyLossOp? && !KnownKeyType(op.keyType)) ==>
      && res.Ok? == Apply(Get(d.rooms, id), op).Ok?
      && (res.Err? ==> res.error == Apply(Get(d.rooms, id), op).error)
    ensures res.Ok? ==>
      && HasKey(d.rooms, id)
      && Keys(res.value.rooms) == Keys(d.rooms)
      && HasKey(res.value.rooms, id)
      && Get(res.value.rooms, id) == Apply(Get(d.rooms, id), op).value
      && AgreeExcept(d.rooms, res.value.rooms, id)
    ensures res.Ok? && Consistent(d) ==> Consistent(res.value)
  {
    match GetRoom(d, id)
    case Err(e) => Err(e)
    case Ok(room) =>
      if op.KeyLossOp? && !KnownKeyType(op.keyType) then Err(InvalidKeyType)
      else
        match Apply(room, op)
        case Err(e) => Err(e)
        case Ok(room') => Ok(Dorm(Put(d.rooms, id, room')))
  }

  /**
   Through the interface, a loss report with an unknown key type is refused
   for its key type even when the resident is absent, whereas the room
   alone reports the absent resident.
   */
  lemma KeyTypeCheckedBeforeResident()
    ensures ApplyAt(AddRoom(Empty(), "1"), "1", KeyLossOp("nobody", "bogus")) == Err(InvalidKeyType)
    ensures KeyLoss(NewRoom("1"), "nobody", "bogus") == Err(ResidentNotFound)
  {
  }

  /** One line of the inventory report. */
  datatype Shortfall = Shortfall(number: RoomId, numKeys: int, needed: int)

  /** How many keys a room lacks to reach the full supply. */
  function Needed(r: Room): int {
    FullSupply - TotalKeys(r)
  }

  function Numbers(s: seq<Shortfall>): (ns: seq<RoomId>)
    ensures |ns| == |s|
    ensures forall i :: 0 <= i < |s| ==> ns[i] == s[i].number
  {
    seq(|s|, i requires 0 <= i < |s| => s[i].number)
  }

  /**
   The inventory report: one line per room that lacks keys, in registry
   order, giving the room's unassigned keys and how many it lacks.
   */
  function InventoryCheck(d: Dorm): (s: seq<Shortfall>)
    requires Valid(d.rooms)
    ensures forall i :: 0 <= i < |s| ==>
      && HasKey(d.rooms, s[i].number)
      && s[i].numKeys == Get(d.rooms, s[i].number).numKeys
      && s[i].needed == Needed(Get(d.rooms, s[i].number))
      && s[i].needed > 0
    ensures forall id :: id in Numbers(s) <==> HasKey(d.rooms, id) && Needed(Get(d.rooms, id)) > 0
    ensures forall i, j :: 0 <= i < j < |s| ==>
      IndexOf(d.rooms, s[i].number) < IndexOf(d.rooms, s[j].number)
    decreases |d.rooms|
  {
    if |d.rooms| == 0 then []
    else
      Uncons(d.rooms);
      var id := d.rooms[0].0;
      var room := d.rooms[0].1;
      var rest := InventoryCheck(Dorm(d.rooms[1..]));
      if Needed(room) > 0 then
        var s := [Shortfall(id, room.numKeys, Needed(room))] + rest;
        assert Numbers(s) == [id] + Numbers(rest);
        s
      else
        rest
  }

  /** The fines of the residents of one room, keyed by (room number, resident). */
  function ResidentFines(id: RoomId, residents: Dict<Name, KeyLosses>): (f: Dict<(RoomId, Name), FineInfo>)
    requires Valid(residents)
    ensures Valid(f)
    ensures forall p :: HasKey(f, p) <==> p.0 == id && HasKey(residents, p.1)
    ensures forall p :: HasKey(f, p) ==> Get(f, p) == FineFor(Get(residents, p.1))
    ensures forall i :: 0 <= i < |f| ==> f[i].0.0 == id && HasKey(residents, f[i].0.1)
    ensures forall i, j :: 0 <= i < j < |f| ==>
      IndexOf(residents, f[i].0.1) < IndexOf(residents, f[j].0.1)
    decreases |residents|
  {
    if |residents| == 0 then []
    else
      Uncons(residents);
      var entry := ((id, residents[0].0), FineFor(residents[0].1));
      var rest := ResidentFines(id, residents[1..]);
      assert Keys([entry]) == [entry.0];
      Concat([entry], rest);
      [entry] + rest
  }

  /**
   The fine report: one entry for every resident of every room, keyed by
   the pair of room number and resident name, holding what the room's fine
   query answers for that resident.
   */
  function FineCheckAll(d: Dorm): (f: Dict<(RoomId, Name), FineInfo>)
    requires Unique(d)
    ensures Valid(f)
    ensures forall p :: HasKey(f, p) <==> HasKey(d.rooms, p.0) && HasKey(Get(d.rooms, p.0).residents, p.1)
    ensures forall p :: HasKey(f, p) ==> FineCheck(Get(d.rooms, p.0), p.1) == Ok(Get(f, p))
    ensures forall i :: 0 <= i < |f| ==>
      HasKey(d.rooms, f[i].0.0) && HasKey(Get(d.rooms, f[i].0.0).residents, f[i].0.1)
    ensures forall i, j :: 0 <= i < j < |f| ==>
      || IndexOf(d.rooms, f[i].0.0) < IndexOf(d.rooms, f[j].0.0)
      || (&& f[i].0.0 == f[j].0.0
          && IndexOf(Get(d.rooms, f[i].0.0).residents, f[i].0.1)
             < IndexOf(Get(d.rooms, f[i].0.0).residents, f[j].0.1))
    decreases |d.rooms|
  {
    if |d.rooms| == 0 then []
    else
      Uncons(d.rooms);
      var id := d.rooms[0].0;
      var here := ResidentFines(id, d.rooms[0].1.residents);
      var rest := FineCheckAll(Dorm(d.rooms[1..]));
      Concat(here, rest);
      here + rest
  }

  /** The roster: every room in registry order, with its residents in check-in order. */
  function Roster(d: Dorm): (r: Dict<RoomId, seq<Name>>)
    requires Valid(d.rooms)
    ensures Keys(r) == Keys(d.rooms)
    ensures forall id :: HasKey(r, id) ==> Get(r, id) == Keys(Get(d.rooms, id).residents)
    decreases |d.rooms|
  {
    if |d.rooms| == 0 then []
    else
      Uncons(d.rooms);
      var entry := (d.rooms[0].0, Keys(d.rooms[0].1.residents));
      var rest := Roster(Dorm(d.rooms[1..]));
      var r := [entry] + rest;
      assert Keys(r) == [entry.0] + Keys(rest);
      assert Keys(d.rooms) == [d.rooms[0].0] + Keys(d.rooms[1..]);
      SameKeysSameValidity(r, d.rooms);
      Uncons(r);
      r
  }

  /**
   A room registered with at least the full supply never shows up in the
   inventory report while none of its residents loses a room key.
   */
  lemma NoShortfallWithoutRoomKeyLoss(id: RoomId, numKeys: int, ops: seq<RoomOp>)
    requires numKeys >= FullSupply
    requires forall i :: 0 <= i < |ops| ==> !LosesRoomKey(ops[i])
    ensures Needed(Run(NewRoom(id, numKeys), ops)) <= 0
  {
    RunTotalKeys(NewRoom(id, numKeys), ops);
  }

  /**
   A fresh room with the default four keys is not short of keys, nor after
   one check-in; once that resident loses the room key it lacks one key.
   */
  lemma ShortfallScenario()
    ensures var d0 := AddRoom(Empty(), "101");
      && InventoryCheck(d0) == []
      && ApplyAt(d0, "101", CheckInOp("Ann")).Ok?
      && var d1 := ApplyAt(d0, "101", CheckInOp("Ann")).value;
      && InventoryCheck(d1) == []
      && ApplyAt(d1, "101", KeyLossOp("Ann", RoomKey)).Ok?
      && InventoryCheck(ApplyAt(d1, "101", KeyLossOp("Ann", RoomKey)).value)
         == [Shortfall("101", 2, 1)]
  {
  }
}
