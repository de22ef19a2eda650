# Dormitory key inventory — a verified model

This project models the bookkeeping core of a small dormitory key-inventory
program. A **room** knows how many of its room keys are not handed out
(`num_keys`) and, for each resident, how many room keys and entrance keys
that resident has lost. A **dormitory** is a registry of rooms by room
number. Residents are checked in and out. Lost keys are reported. Fines for
lost keys follow a tiered schedule. The dormitory reports which rooms lack
keys, what every resident owes, and who lives where.

The model is functional. Rooms and the registry are immutable values. Every
operation returns either the updated value or an `Error`
(`CapacityExceeded`, `DuplicateResident`, `ResidentNotFound`,
`InvalidKeyType`, `RoomNotFound`) in place of the program's exceptions and
the interface's room-not-found message.
Every guard in the program is checked before anything is changed. So a
refused operation changes nothing, and in the model that holds by
construction: a refusal carries no room, and the caller keeps the one it
had (`Rooms.Run` and `Dorms.ApplyAt` show this).

Files:

- `dicts.dfy` (`Dicts`): an insertion-ordered dictionary with the behaviour
  of a Python `dict`. Assigning to a present key keeps its place. A new key
  goes last. Deleting closes the gap. Both the residents of a room and the
  registry are such dictionaries, because the reports iterate in insertion
  order.
- `fines.dfy` (`Fines`): the tiered fine schedule, with an independent
  per-loss definition it is proved equal to.
- `rooms.dfy` (`Rooms`): the room, its four operations, and sequences of
  operations.
- `dorms.dfy` (`Dorms`): the registry, `add_room`, the room lookup the
  interface performs before each room operation, and the three reports.

Details of the program's behaviour the model keeps:

- A room's own key-loss operation rejects an absent resident before it
  looks at the key type. A report naming an absent resident and a bad key
  type is `ResidentNotFound` there (`Rooms.KeyLoss`). The interface's
  key-loss handler checks the key type itself first, right after finding
  the room, so through it the same report is `InvalidKeyType`
  (`Dorms.ApplyAt`, `Dorms.KeyTypeCheckedBeforeResident`).
- `add_room` on an existing number replaces the room in the registry
  position it already had, as assignment to a Python `dict` does. It does
  not move the room to the end.
- A room, and `add_room`, start with four keys when no count is given
  (`Rooms.DefaultKeys`, used as the default argument of `Rooms.NewRoom`
  and `Dorms.AddRoom`).

## Model

| member | source | states |
|---|---|---|
| `Fines.TierFine` | Inventory_CheckinOut_Room_BuildingKey.py:45-52 | the tiered fine for n losses equals the closed form 0 for n = 0 and (2n − 1)·rate otherwise; it is never negative |
| `Fines.TierFineIsChargeTotal` | Inventory_CheckinOut_Room_BuildingKey.py:45-52 | the tiered formula equals the sum of per-loss charges: the base rate for the first loss, twice the base rate for each later one |
| `Fines.TierFineStep` | Inventory_CheckinOut_Room_BuildingKey.py:48 | one more loss raises the fine by exactly that loss's charge (10 for the first room key, 20 for each later one) |
| `Fines.TierFineMonotone` | Inventory_CheckinOut_Room_BuildingKey.py:45-52 | more losses never give a smaller fine |
| `Fines.FineExamples` | Inventory_CheckinOut_Room_BuildingKey.py:45-52 | room fines 0, 10, 30, 50 for 0 to 3 losses; entrance fines 0, 20, 60, 100 |
| `Rooms.CheckIn` | Inventory_CheckinOut_Room_BuildingKey.py:13-19 | a full room is refused with CapacityExceeded before the duplicate check; a present name is refused with DuplicateResident; otherwise, and only then, the name is added last with both counters 0, num_keys drops by one, the room then holds one more resident and at most two, no other resident changes, and a room with distinct names keeps them distinct |
| `Rooms.CheckOut` | Inventory_CheckinOut_Room_BuildingKey.py:21-25 | an absent name is refused with ResidentNotFound; otherwise only that resident is removed and num_keys rises by exactly one whatever the resident lost |
| `Rooms.KeyLoss` | Inventory_CheckinOut_Room_BuildingKey.py:27-36 | an absent resident is refused before the key type is checked; a key type other than room_key or entrance_key is refused with InvalidKeyType; a room-key loss adds one to room_key_loss and takes one from num_keys, with no floor at zero; an entrance-key loss adds one to entrance_key_loss only; no other resident changes |
| `Rooms.FineFor` | Inventory_CheckinOut_Room_BuildingKey.py:43-53 | the fine record repeats both counters and charges each as the per-loss sum at rate 10 (room) or 20 (entrance) |
| `Rooms.FineCheck` | Inventory_CheckinOut_Room_BuildingKey.py:40-53 | an absent resident is refused with ResidentNotFound; otherwise the stored counters come back with their fines; the room is only read |
| `Rooms.CheckInThenCheckOut` | Inventory_CheckinOut_Room_BuildingKey.py:13-25 | a successful check-in followed by check-out of the same name gives back the original room: same residents in the same order, same num_keys |
| `Rooms.CheckOutForgetsLosses` | Inventory_CheckinOut_Room_BuildingKey.py:18-25 | checking a resident out and back in restores num_keys and resets their loss counters to zero |
| `Rooms.Apply` | Inventory_CheckinOut_Room_BuildingKey.py:13-36 | every room operation keeps the room number and well-formedness, and keeps num_keys + residents fixed except a room-key loss, which lowers it by one |
| `Rooms.RunKeepsWellFormed` | Inventory_CheckinOut_Room_BuildingKey.py:14-17 | after any sequence of check-ins, check-outs and loss reports a room that had at most two distinct residents still has |
| `Rooms.RunTotalKeys` | Inventory_CheckinOut_Room_BuildingKey.py:19-34 | no sequence of operations raises num_keys + residents, and one without room-key losses keeps it fixed |
| `Rooms.NewRoom` | Inventory_CheckinOut_Room_BuildingKey.py:6-11 | a room created without residents has the given number and key count (four by default), nobody in it, is well formed, and has all its keys unassigned |
| `Dorms.Empty` | Inventory_CheckinOut_Room_BuildingKey.py:91-96 | the registry a dormitory starts from when no saved file exists (lines 57-58 and 95-96) holds no rooms and is consistent |
| `Dorms.KeyTypeCheckedBeforeResident` | Inventory_CheckinOut_Room_BuildingKey.py:183-191 | through the interface an unknown key type is refused before the resident is looked up, while the room's own operation reports the absent resident first |
| `Dorms.AddRoom` | Inventory_CheckinOut_Room_BuildingKey.py:60-61 | afterwards the number maps to a fresh room with the given key count (four by default) and no residents, replacing any earlier room in its place; every other room is unchanged |
| `Dorms.GetRoom` | Inventory_CheckinOut_Room_BuildingKey.py:153-158 | an unregistered room number is refused with RoomNotFound; a registered one gives back exactly the room filed under it |
| `Dorms.ApplyAt` | Inventory_CheckinOut_Room_BuildingKey.py:160-195 | a room operation through the registry fails with RoomNotFound for an unknown room; a loss report with an unknown key type then fails with InvalidKeyType before the resident is looked up; otherwise it passes on the room's own refusal, and otherwise replaces only that room in place and keeps the registry consistent |
| `Dorms.InventoryCheck` | Inventory_CheckinOut_Room_BuildingKey.py:63-70 | a room is listed if and only if num_keys + residents < 4; each line carries the room's num_keys and the positive number of keys it lacks; lines follow registry order |
| `Dorms.ResidentFines` | Inventory_CheckinOut_Room_BuildingKey.py:75-77 | one entry per resident of the room, keyed by (room, resident), holding that resident's fine record, in check-in order |
| `Dorms.FineCheckAll` | Inventory_CheckinOut_Room_BuildingKey.py:72-78 | exactly one entry per (room, resident) pair in the registry, each equal to the room's fine query for that resident; entries run room by room in registry order, residents in check-in order |
| `Dorms.Roster` | Inventory_CheckinOut_Room_BuildingKey.py:80-85 | lists every room once, in registry order, each with exactly its resident names in check-in order |
| `Dorms.NoShortfallWithoutRoomKeyLoss` | Inventory_CheckinOut_Room_BuildingKey.py:63-70 | a room registered with at least 4 keys is never short of keys while nobody in it loses a room key |
| `Dorms.ShortfallScenario` | Inventory_CheckinOut_Room_BuildingKey.py:63-70 | a fresh 4-key room is not listed, nor after one check-in; after that resident loses the room key it is listed with 2 keys, lacking 1 |

## Left out

- The tkinter interface (`DormGUI`): widgets, message boxes and the text of
  reports are presentation only. The interface's room lookup is modelled as
  `Dorms.GetRoom`. Its check-in, check-out and key-loss handlers are
  modelled as `Dorms.ApplyAt`, without the save after each change. The
  `int()` parsing of the key count is left out.
- Saving and loading the registry with pickle, and the automatic load when
  the dormitory is created: these are file I/O and foreign serialisation.
  Loading from a missing file is represented only by the empty registry
  `Dorms.Empty()`.
- Exception messages: they become the values of `Rooms.Error`.
- The `residents` argument of the `Room` constructor, which can build a room
  with more than two residents. Rooms are created only through `NewRoom`,
  which `add_room` uses. The at-most-two invariant is therefore stated for
  well-formed rooms.
- Room numbers and resident names are strings, as the interface supplies
  them. Integer room numbers are not modelled.
- Dorms.FineCheckAll: keys each entry by the pair (room number, resident
  name), where the program uses the string `room-resident`. Two different
  pairs can give the same string, for example room `1-2` with resident `x`
  and room `1` with resident `2-x`. The program then keeps only one record
  under that label: the later resident's record overwrites the earlier one
  in the earlier one's place. The model keeps one entry per pair and does
  not reproduce this overwrite.
- Dorms.InventoryCheck, Dorms.FineCheckAll, Dorms.Roster: require registries
  whose keys are unique. Every Python `dict` satisfies this, so no input the
  program can build is excluded.
