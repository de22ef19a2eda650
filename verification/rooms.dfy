/**
 One dormitory room: how many of its room keys are not handed out, and, per
 resident, how many room keys and entrance keys that resident has lost.
 Every operation either fails with an `Error` and changes nothing (the
 caller keeps the room it had) or returns the updated room.
 */
module Rooms {
  import opened Dicts
  import opened Fines

  type RoomId = string
  type Name = string

  /** The two loss counters kept per resident. */
  datatype KeyLosses = KeyLosses(roomKeyLoss: nat, entranceKeyLoss: nat)

  const NoLosses := KeyLosses(0, 0)

  /**
   `numKeys` counts unassigned room keys; it is never clamped, so losses can
   drive it below zero. `residents` maps each resident to their counters, in
   check-in order.
   */
  datatype Room = Room(number: RoomId, numKeys: int, residents: Dict<Name, KeyLosses>)

  datatype Error =
    | CapacityExceeded
    | DuplicateResident
    | ResidentNotFound
    | InvalidKeyType
    | RoomNotFound

  datatype Result<T> = Ok(value: T) | Err(error: Error)

  /** What a fine query returns about one resident. */
  datatype FineInfo = FineInfo(roomFine: nat, entranceFine: nat, roomKeyLoss: nat, entranceKeyLoss: nat)

  const Capacity := 2
  const RoomKey := "room_key"
  const EntranceKey := "entrance_key"

  /** The key count a room starts with when none is given. */
  const DefaultKeys := 4

  /** The two key types a loss can be reported for. */
  predicate KnownKeyType(keyType: string) {
    keyType == RoomKey || keyType == EntranceKey
  }

  /** A room as it is created: the given key count (four by default) and nobody in it. */
  function NewRoom(number: RoomId, numKeys: int := DefaultKeys): (r: Room)
    ensures r.number == number && r.numKeys == numKeys
    ensures |r.residents| == 0 && forall n :: !HasKey(r.residents, n)
    ensures WellFormed(r) && TotalKeys(r) == numKeys
  {
    Room(number, numKeys, [])
  }

  /** Resident names are unique and there are at most two residents. */
  predicate WellFormed(r: Room) {
    Valid(r.residents) && |r.residents| <= Capacity
  }

  /** Keys that are either unassigned or out with a resident. */
  function TotalKeys(r: Room): int {
    r.numKeys + |r.residents|
  }

  /**
   Check a resident in: refused when the room is full (checked first) or the
   name is already present; otherwise the resident is added last with no
   losses and one room key is handed out.
   */
  function CheckIn(r: Room, name: Name): (res: Result<Room>)
    ensures |r.residents| >= Capacity ==> res == Err(CapacityExceeded)
    ensures |r.residents| < Capacity && HasKey(r.residents, name) ==> res == Err(DuplicateResident)
    ensures res.Ok? <==> |r.residents| < Capacity && !HasKey(r.residents, name)
    ensures res.Ok? ==>
      && res.value.number == r.number
      && res.value.numKeys == r.numKeys - 1
      && |res.value.residents| == |r.residents| + 1 <= Capacity
      && Keys(res.value.residents) == Keys(r.residents) + [name]
      && HasKey(res.value.residents, name)
      && Get(res.value.residents, name) == NoLosses
      && AgreeExcept(r.residents, res.value.residents, name)
      && TotalKeys(res.value) == TotalKeys(r)
    ensures res.Ok? && WellFormed(r) ==> WellFormed(res.value)
  {
    if |r.residents| >= Capacity then Err(CapacityExceeded)
    else if HasKey(r.residents, name) then Err(DuplicateResident)
    else Ok(Room(r.number, r.numKeys - 1, Put(r.residents, name, NoLosses)))
  }

  /**
   Check a resident out: refused when the name is absent; otherwise the
   resident's record goes and one room key comes back, whatever the
   resident lost before.
   */
  function CheckOut(r: Room, name: Name): (res: Result<Room>)
    ensures res.Ok? <==> HasKey(r.residents, name)
    ensures res.Err? ==> res.error == ResidentNotFound
    ensures res.Ok? ==>
      && res.value.number == r.number
      && res.value.numKeys == r.numKeys + 1
      && |res.value.residents| == |r.residents| - 1
      && AgreeExcept(r.residents, res.value.residents, name)
      && TotalKeys(res.value) == TotalKeys(r)
    ensures res.Ok? && Valid(r.residents) ==> !HasKey(res.value.residents, name)
    ensures res.Ok? && WellFormed(r) ==> WellFormed(res.value)
  {
    if !HasKey(r.residents, name) then Err(ResidentNotFound)
    else Ok(Room(r.number, r.numKeys + 1, Delete(r.residents, name)))
  }

  /**
   Report a lost key: an absent resident is refused before the key type is
   looked at, and a key type other than `room_key` or `entrance_key` is
   refused. A lost room key is counted against the resident and removed
   from the room's pool; a lost entrance key is only counted.
   */
  function KeyLoss(r: Room, name: Name, keyType: string): (res: Result<Room>)
    ensures !HasKey(r.residents, name) ==> res == Err(ResidentNotFound)
    ensures HasKey(r.residents, name) && keyType != RoomKey && keyType != EntranceKey ==>
      res == Err(InvalidKeyType)
    ensures res.Ok? <==> HasKey(r.residents, name) && (keyType == RoomKey || keyType == EntranceKey)
    ensures res.Ok? ==>
      && res.value.number == r.number
      && Keys(res.value.residents) == Keys(r.residents)
      && HasKey(res.value.residents, name)
      && AgreeExcept(r.residents, res.value.residents, name)
    ensures res.Ok? && keyType == RoomKey ==>
      var before := Get(r.residents, name);
      && res.value.numKeys == r.numKeys - 1
      && Get(res.value.residents, name)
         == KeyLosses(before.roomKeyLoss + 1, before.entranceKeyLoss)
    ensures res.Ok? && keyType == EntranceKey ==>
      var before := Get(r.residents, name);
      && res.value.numKeys == r.numKeys
      && Get(res.value.residents, name)
         == KeyLosses(before.roomKeyLoss, before.entranceKeyLoss + 1)
    ensures res.Ok? && WellFormed(r) ==> WellFormed(res.value)
  {
    if !HasKey(r.residents, name) then Err(ResidentNotFound)
    else if !KnownKeyType(keyType) then Err(InvalidKeyType)
    else
      var l := Get(r.residents, name);
      if keyType == RoomKey then
        Ok(Room(r.number, r.numKeys - 1,
                Put(r.residents, name, l.(roomKeyLoss := l.roomKeyLoss + 1))))
      else
        Ok(Room(r.number, r.numKeys,
                Put(r.residents, name, l.(entranceKeyLoss := l.entranceKeyLoss + 1))))
  }

  /** The fine record for one resident's counters. */
  function FineFor(l: KeyLosses): (f: FineInfo)
    ensures f.roomKeyLoss == l.roomKeyLoss && f.entranceKeyLoss == l.entranceKeyLoss
    ensures f.roomFine == ChargeTotal(l.roomKeyLoss, RoomKeyRate)
    ensures f.entranceFine == ChargeTotal(l.entranceKeyLoss, EntranceKeyRate)
  {
    TierFineIsChargeTotal(l.roomKeyLoss, RoomKeyRate);
    TierFineIsChargeTotal(l.entranceKeyLoss, EntranceKeyRate);
    FineInfo(TierFine(l.roomKeyLoss, RoomKeyRate), TierFine(l.entranceKeyLoss, EntranceKeyRate),
             l.roomKeyLoss, l.entranceKeyLoss)
  }

  /**
   The fines a resident owes: refused for an absent resident; otherwise the
   counters as stored, each with the tiered fine of its key type. The room
   is only read.
   */
  function FineCheck(r: Room, name: Name): (res: Result<FineInfo>)
    ensures res.Ok? <==> HasKey(r.residents, name)
    ensures res.Err? ==> res.error == ResidentNotFound
    ensures res.Ok? ==>
      var l := Get(r.residents, name);
      && res.value.roomKeyLoss == l.roomKeyLoss
      && res.value.entranceKeyLoss == l.entranceKeyLoss
      && res.value.roomFine == ChargeTotal(l.roomKeyLoss, RoomKeyRate)
      && res.value.entranceFine == ChargeTotal(l.entranceKeyLoss, EntranceKeyRate)
  {
    if !HasKey(r.residents, name) then Err(ResidentNotFound)
    else Ok(FineFor(Get(r.residents, name)))
  }

  /** Checking a new resident in and straight out again restores the room. */
  lemma CheckInThenCheckOut(r: Room, name: Name)
    ensures CheckIn(r, name).Ok? ==> CheckOut(CheckIn(r, name).value, name) == Ok(r)
  {
    if CheckIn(r, name).Ok? {
      PutNewThenDelete(r.residents, name, NoLosses);
    }
  }

  /**
   Check-out does not remember losses: a resident who checks out and back
   in starts again with no losses, and the key count is where it was.
   */
  lemma CheckOutForgetsLosses(r: Room, name: Name)
    requires WellFormed(r) && HasKey(r.residents, name)
    ensures var out := CheckOut(r, name).value;
      && CheckIn(out, name).Ok?
      && CheckIn(out, name).value.numKeys == r.numKeys
      && Get(CheckIn(out, name).value.residents, name) == NoLosses
  {
  }

  /** The operations a caller can apply to a room. */
  datatype RoomOp = CheckInOp(name: Name) | CheckOutOp(name: Name) | KeyLossOp(name: Name, keyType: string)

  function Apply(r: Room, op: RoomOp): (res: Result<Room>)
    ensures res.Ok? ==> res.value.number == r.number
    ensures res.Ok? && WellFormed(r) ==> WellFormed(res.value)
    ensures res.Ok? ==> TotalKeys(res.value) == TotalKeys(r) - (if LosesRoomKey(op) then 1 else 0)
  {
    match op
    case CheckInOp(name) => CheckIn(r, name)
    case CheckOutOp(name) => CheckOut(r, name)
    case KeyLossOp(name, keyType) => KeyLoss(r, name, keyType)
  }

  predicate LosesRoomKey(op: RoomOp) {
    op.KeyLossOp? && op.keyType == RoomKey
  }

  /** The room after `ops`, each applied in turn; a refused operation leaves the room as it was. */
  function Run(r: Room, ops: seq<RoomOp>): Room
    decreases |ops|
  {
    if |ops| == 0 then r
    else
      var res := Apply(r, ops[0]);
      Run(if res.Ok? then res.value else r, ops[1..])
  }

  /** No sequence of operations puts a third resident, or a repeated name, into a room. */
  lemma {:induction false} RunKeepsWellFormed(r: Room, ops: seq<RoomOp>)
    requires WellFormed(r)
    ensures WellFormed(Run(r, ops))
    decreases |ops|
  {
    if |ops| > 0 {
      var res := Apply(r, ops[0]);
      RunKeepsWellFormed(if res.Ok? then res.value else r, ops[1..]);
    }
  }

  /**
   Keys are only ever lost: check-ins, check-outs and entrance-key losses
   keep `numKeys + |residents|` fixed, and each room-key loss lowers it.
   */
  lemma {:induction false} RunTotalKeys(r: Room, ops: seq<RoomOp>)
    ensures TotalKeys(Run(r, ops)) <= TotalKeys(r)
    ensures (forall i :: 0 <= i < |ops| ==> !LosesRoomKey(ops[i])) ==>
      TotalKeys(Run(r, ops)) == TotalKeys(r)
    decreases |ops|
  {
    if |ops| > 0 {
      var res := Apply(r, ops[0]);
      RunTotalKeys(if res.Ok? then res.value else r, ops[1..]);
      assert forall i :: 0 <= i < |ops| - 1 ==> ops[1..][i] == ops[i + 1];
    }
  }
}
