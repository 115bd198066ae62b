/** The hospital record that shots.py keeps in its global `hospital` dict, one
    per hospital id, and the operations that fill it: register_unique_room
    (shots.py:374-389), add_hospital_section (shots.py:1605-1626) and the
    room-adding loop of the hospital dialog (shots.py:1490-1519). */
module HospitalModel {
  import opened Text

  /** An element of a room list: read rooms are int(room); rooms added in
      the dialog are the parser's strings. */
  datatype RoomId = IntId(n: int) | StrId(s: string)

  /** The two groupings of rooms, the 'bld' and 'dep' keys of a hospital. */
  datatype Element = Bld | Dep

  /** A room entry, the dict under a room key. A field is None when the key
      is absent or holds None. */
  datatype Room = Room(status: Option<string>, bld: Option<string>, dep: Option<string>)
  {
    function Owner(elem: Element): Option<string>
    {
      if elem == Bld then bld else dep
    }

    function WithOwner(elem: Element, name: string): Room
    {
      if elem == Bld then this.(bld := Some(name)) else this.(dep := Some(name))
    }
  }

  /** hospital[id]['info']: the values of the hospital's section, None for a
      key written without a value. */
  datatype Info = Info(name: Option<string>, full: Option<string>,
                       created: Option<string>, createdBy: Option<string>,
                       updated: Option<string>, updatedBy: Option<string>,
                       version: Option<string>)

  /** A grouping: the room list of every building (or department) name. */
  type RoomLists = map<string, seq<RoomId>>

  /** hospital[id]: the 'info', 'bld' and 'dep' keys (None when absent) and
      the room entries, which the source keeps in the same dict. */
  datatype Hospital = Hospital(info: Option<Info>, bld: Option<RoomLists>, dep: Option<RoomLists>,
                               rooms: map<string, Room>)
  {
    function Lists(elem: Element): Option<RoomLists>
    {
      if elem == Bld then bld else dep
    }

    function WithLists(elem: Element, m: RoomLists): (h: Hospital)
      ensures h.Lists(elem) == Some(m)
    {
      if elem == Bld then this.(bld := Some(m)) else this.(dep := Some(m))
    }
  }

  const EmptyHospital := Hospital(None, None, None, map[])

  /** '_'.join((hospital, name, room)) */
  function RoomKey(hid: string, name: string, room: string): string
  {
    hid + "_" + name + "_" + room
  }

  function Other(elem: Element): Element
  {
    if elem == Bld then Dep else Bld
  }

  // ---------------------------------------------------------------------
  // register_unique_room

  /** register_unique_room(room) for the building (or department) `name` of
      hospital `hid`: int(room) is appended to that name's list, and the room
      entry under '<hid>_<name>_<room>' is created with status None if it is
      absent; either way its `elem` field becomes `name`. */
  function RegisterRoom(h: Hospital, hid: string, elem: Element, name: string, room: string): Hospital
    requires h.Lists(elem).Some? && name in h.Lists(elem).value
    requires IsDigits(room)
  {
    var lists := h.Lists(elem).value;
    var key := RoomKey(hid, name, room);
    var entry := if key in h.rooms then h.rooms[key] else Room(None, None, None);
    h.WithLists(elem, lists[name := lists[name] + [IntId(DigitsValue(room))]])
     .(rooms := h.rooms[key := entry.WithOwner(elem, name)])
  }

  /** What one registration changes: int(room) appended to the name's list;
      the entry '<hid>_<name>_<room>' present afterwards, naming the list,
      with the status and the other owner it had (None for a new entry);
      nothing else. */
  lemma RegisterRoomEffect(h: Hospital, hid: string, elem: Element, name: string, room: string)
    requires h.Lists(elem).Some? && name in h.Lists(elem).value
    requires IsDigits(room)
    ensures var r, lists := RegisterRoom(h, hid, elem, name, room), h.Lists(elem).value;
            && r.Lists(elem) == Some(lists[name := lists[name] + [IntId(DigitsValue(room))]])
            && r.Lists(Other(elem)) == h.Lists(Other(elem)) && r.info == h.info
    ensures var r, key := RegisterRoom(h, hid, elem, name, room), RoomKey(hid, name, room);
            && r.rooms.Keys == h.rooms.Keys + {key}
            && r.rooms[key].Owner(elem) == Some(name)
            && r.rooms[key].status == (if key in h.rooms then h.rooms[key].status else None)
            && r.rooms[key].Owner(Other(elem)) == (if key in h.rooms then h.rooms[key].Owner(Other(elem)) else None)
            && forall k :: k in h.rooms && k != key ==> r.rooms[k] == h.rooms[k]
  {
  }

  // ---------------------------------------------------------------------
  // add_hospital_section, on a hospital dict

  /** add_hospital_section(elem, name) on a dict that is already there: the
      grouping is created empty if missing; the name is added with an empty
      room list and True returned, unless it is there already, when False
      is returned. */
  function AddSection(h: Hospital, elem: Element, name: string): (r: (Hospital, bool))
    ensures r.1 == !(h.Lists(elem).Some? && name in h.Lists(elem).value)
    ensures !r.1 ==> r.0 == h
    ensures r.1 ==> var before := if h.Lists(elem).Some? then h.Lists(elem).value else map[];
                    r.0 == h.WithLists(elem, before[name := []])
  {
    var lists := if h.Lists(elem).Some? then h.Lists(elem).value else map[];
    if name in lists then (h.WithLists(elem, lists), false)
    else (h.WithLists(elem, lists[name := []]), true)
  }

  // ---------------------------------------------------------------------
  // The dialog's room loop

  /** None if len(name) == 0 else name */
  function NameOrNone(name: string): Option<string>
  {
    if name == [] then None else Some(name)
  }

  /** The key the dialog uses for a room: the bare room id when neither a
      building nor a department is chosen, else '<hospital>_<building>_<room>'. */
  function DialogKey(hospitalName: string, roomBld: string, roomDep: string, roomId: string): string
  {
    if roomBld == [] && roomDep == [] then roomId else RoomKey(hospitalName, roomBld, roomId)
  }

  function StrIds(ids: seq<string>): (r: seq<RoomId>)
    ensures |r| == |ids| && forall i :: 0 <= i < |ids| ==> r[i] == StrId(ids[i])
  {
    if ids == [] then [] else StrIds(ids[..|ids| - 1]) + [StrId(ids[|ids| - 1])]
  }

  /** A grouping after the dialog: when a name is chosen, its list (created
      empty if missing) gets every room id appended in order. */
  function ListsAfterDialog(m: RoomLists, name: string, roomIds: seq<string>): RoomLists
  {
    if name == [] then m
    else m[name := (if name in m then m[name] else []) + StrIds(roomIds)]
  }

  lemma ListsAfterNothing(m: RoomLists, name: string)
    ensures ListsAfterDialog(m, name, []) == if name == [] || name in m then m else m[name := []]
  {
    assert StrIds([]) == [];
    if name in m {
      assert m[name] + [] == m[name];
      assert m[name := m[name]] == m;
    }
  }

  lemma ListsAfterInTwoSteps(m: RoomLists, name: string, roomIds: seq<string>)
    requires name != []
    ensures name in ListsAfterDialog(m, name, [])
    ensures var setUp := ListsAfterDialog(m, name, []);
            ListsAfterDialog(m, name, roomIds) == setUp[name := setUp[name] + StrIds(roomIds)]
  {
    ListsAfterNothing(m, name);
  }

  /** The key set the dialog writes for a list of room ids. */
  function DialogKeys(hospitalName: string, roomBld: string, roomDep: string, roomIds: seq<string>): set<string>
  {
    set r | r in roomIds :: DialogKey(hospitalName, roomBld, roomDep, r)
  }

  lemma DialogKeysStep(hospitalName: string, roomBld: string, roomDep: string, ids: seq<string>, id: string)
    ensures DialogKeys(hospitalName, roomBld, roomDep, ids + [id])
         == DialogKeys(hospitalName, roomBld, roomDep, ids) + {DialogKey(hospitalName, roomBld, roomDep, id)}
  {
    assert forall r :: r in ids + [id] <==> r in ids || r == id;
  }

  /** The first loop of shots.py:1490-1502: for each chosen name, its list is
      created empty if missing. */
  method SetUpNameLists(draft: Hospital, roomDep: string, roomBld: string) returns (h: Hospital)
    requires draft.bld.Some? && draft.dep.Some?
    ensures h.info == draft.info && h.rooms == draft.rooms
    ensures h.dep == Some(ListsAfterDialog(draft.dep.value, roomDep, []))
    ensures h.bld == Some(ListsAfterDialog(draft.bld.value, roomBld, []))
  {
    h := draft;
    var sections := [Dep, Bld];
    for s := 0 to 2
      invariant h.info == draft.info && h.rooms == draft.rooms
      invariant h.dep == if s >= 1 then Some(ListsAfterDialog(draft.dep.value, roomDep, [])) else draft.dep
      invariant h.bld == if s >= 2 then Some(ListsAfterDialog(draft.bld.value, roomBld, [])) else draft.bld
    {
      var elem := sections[s];
      var item := if elem == Dep then roomDep else roomBld;
      if item == [] {
        continue;
      }
      var lists := h.Lists(elem).value;
      ListsAfterNothing(lists, item);
      if item !in lists {
        h := h.WithLists(elem, lists[item := []]);
      }
    }
    ListsAfterNothing(draft.dep.value, roomDep);
    ListsAfterNothing(draft.bld.value, roomBld);
  }

  /** The chosen name's list with `ids` appended; nothing when no name is chosen. */
  function AppendAll(m: RoomLists, name: string, ids: seq<string>): RoomLists
    requires name != [] ==> name in m
  {
    if name == [] then m else m[name := m[name] + StrIds(ids)]
  }

  lemma AppendAllNothing(m: RoomLists, name: string)
    requires name != [] ==> name in m
    ensures AppendAll(m, name, []) == m
  {
    assert StrIds([]) == [];
    if name != [] {
      assert m[name] + [] == m[name];
      assert m[name := m[name]] == m;
    }
  }

  lemma AppendAllStep(m: RoomLists, name: string, ids: seq<string>, id: string)
    requires name != [] ==> name in m
    ensures name != [] ==> name in AppendAll(m, name, ids)
    ensures AppendAll(m, name, ids + [id])
         == if name == [] then AppendAll(m, name, ids)
            else AppendAll(m, name, ids)[name := AppendAll(m, name, ids)[name] + [StrId(id)]]
  {
    var longer := ids + [id];
    assert longer[..|longer| - 1] == ids && longer[|longer| - 1] == id;
    assert StrIds(longer) == StrIds(ids) + [StrId(id)];
    if name != [] {
      assert m[name] + StrIds(longer) == (m[name] + StrIds(ids)) + [StrId(id)];
    }
  }

  /** The room entries after the keys in `keys` are all overwritten with `entry`. */
  function Overwritten(rooms0: map<string, Room>, keys: set<string>, entry: Room): map<string, Room>
  {
    map k | k in rooms0.Keys + keys :: if k in keys then entry else rooms0[k]
  }

  lemma OverwrittenNothing(rooms0: map<string, Room>, entry: Room)
    ensures Overwritten(rooms0, {}, entry) == rooms0
  {
  }

  lemma OverwrittenStep(rooms0: map<string, Room>, keys: set<string>, key: string, entry: Room)
    ensures Overwritten(rooms0, keys + {key}, entry) == Overwritten(rooms0, keys, entry)[key := entry]
  {
  }

  /** The second loop of shots.py:1506-1519: every room id appended to the
      chosen lists (hospital_departments and hospital_buildings, which are
      the dialog copy's own 'dep' and 'bld' dicts) and its entry overwritten. */
  method AppendRoomIds(deps0: RoomLists, blds0: RoomLists, rooms0: map<string, Room>,
                       hospitalName: string, roomIds: seq<string>, roomDep: string, roomBld: string)
    returns (deps: RoomLists, blds: RoomLists, rooms: map<string, Room>)
    requires roomDep != [] ==> roomDep in deps0
    requires roomBld != [] ==> roomBld in blds0
    ensures deps == AppendAll(deps0, roomDep, roomIds)
    ensures blds == AppendAll(blds0, roomBld, roomIds)
    ensures rooms == Overwritten(rooms0, DialogKeys(hospitalName, roomBld, roomDep, roomIds),
                                 Room(None, NameOrNone(roomBld), NameOrNone(roomDep)))
  {
    deps, blds, rooms := deps0, blds0, rooms0;
    var entry := Room(None, NameOrNone(roomBld), NameOrNone(roomDep));
    AppendAllNothing(deps0, roomDep);
    AppendAllNothing(blds0, roomBld);
    OverwrittenNothing(rooms0, entry);
    assert roomIds[..0] == [];
    for i := 0 to |roomIds|
      invariant deps == AppendAll(deps0, roomDep, roomIds[..i])
      invariant blds == AppendAll(blds0, roomBld, roomIds[..i])
      invariant rooms == Overwritten(rooms0, DialogKeys(hospitalName, roomBld, roomDep, roomIds[..i]), entry)
    {
      var roomId := roomIds[i];
      assert roomIds[..i + 1] == roomIds[..i] + [roomId];
      AppendAllStep(deps0, roomDep, roomIds[..i], roomId);
      AppendAllStep(blds0, roomBld, roomIds[..i], roomId);
      if roomDep != [] {
        deps := deps[roomDep := deps[roomDep] + [StrId(roomId)]];
      }
      if roomBld != [] {
        blds := blds[roomBld := blds[roomBld] + [StrId(roomId)]];
      }
      var key := DialogKey(hospitalName, roomBld, roomDep, roomId);
      rooms := rooms[key := entry];
      DialogKeysStep(hospitalName, roomBld, roomDep, roomIds[..i], roomId);
      OverwrittenStep(rooms0, DialogKeys(hospitalName, roomBld, roomDep, roomIds[..i]), key, entry);
    }
    assert roomIds[..|roomIds|] == roomIds;
  }

  /** The room loop of the dialog (shots.py:1490-1519) on the dialog's copy of
      the hospital, whose 'bld' and 'dep' keys the dialog sets up before the
      loop runs. room_bld and room_dep are the names chosen, "" for none. */
  method AddRoomsFromDialog(draft: Hospital, hospitalName: string, roomIds: seq<string>,
                            roomDep: string, roomBld: string) returns (h: Hospital)
    requires draft.bld.Some? && draft.dep.Some?
    ensures roomIds == [] ==> h == draft
    ensures roomIds != [] ==>
              h == Hospital(draft.info,
                            Some(ListsAfterDialog(draft.dep.value, roomDep, roomIds)),
                            Some(ListsAfterDialog(draft.bld.value, roomBld, roomIds)),
                            Overwritten(draft.rooms, DialogKeys(hospitalName, roomBld, roomDep, roomIds),
                                        Room(None, NameOrNone(roomBld), NameOrNone(roomDep))))
  {
    if roomIds == [] {
      return draft;
    }
    var setUp := SetUpNameLists(draft, roomDep, roomBld);
    var deps, blds, rooms := AppendRoomIds(setUp.dep.value, setUp.bld.value, setUp.rooms,
                                           hospitalName, roomIds, roomDep, roomBld);
    h := Hospital(setUp.info, Some(deps), Some(blds), rooms);
    if roomDep != [] {
      ListsAfterInTwoSteps(draft.dep.value, roomDep, roomIds);
    }
    if roomBld != [] {
      ListsAfterInTwoSteps(draft.bld.value, roomBld, roomIds);
    }
  }

  // ---------------------------------------------------------------------
  // Lemmas

  /** Registering the same room twice leaves the room entries as one
      registration does: the entry exists once and keeps its status. */
  lemma RegisterTwiceSameRooms(h: Hospital, hid: string, elem: Element, name: string, room: string)
    requires h.Lists(elem).Some? && name in h.Lists(elem).value && IsDigits(room)
    ensures var once := RegisterRoom(h, hid, elem, name, room);
            RegisterRoom(once, hid, elem, name, room).rooms == once.rooms
  {
    var once := RegisterRoom(h, hid, elem, name, room);
    var twice := RegisterRoom(once, hid, elem, name, room);
    var key := RoomKey(hid, name, room);
    assert twice.rooms[key] == once.rooms[key];
  }

  /** ... while the name's list gets the room twice: duplicates are kept. */
  lemma RegisterTwiceKeepsDuplicates(h: Hospital, hid: string, elem: Element, name: string, room: string)
    requires h.Lists(elem).Some? && name in h.Lists(elem).value && IsDigits(room)
    ensures var twice := RegisterRoom(RegisterRoom(h, hid, elem, name, room), hid, elem, name, room);
            twice.Lists(elem).value[name]
              == h.Lists(elem).value[name] + [IntId(DigitsValue(room)), IntId(DigitsValue(room))]
  {
  }

  /** An existing status survives registration. */
  lemma RegisterKeepsStatus(h: Hospital, hid: string, elem: Element, name: string, room: string)
    requires h.Lists(elem).Some? && name in h.Lists(elem).value && IsDigits(room)
    requires RoomKey(hid, name, room) in h.rooms
    ensures RegisterRoom(h, hid, elem, name, room).rooms[RoomKey(hid, name, room)].status
         == h.rooms[RoomKey(hid, name, room)].status
  {
  }

  /** A building and a department with the same name share their room
      entries: after registering the room under both, the entry names both. */
  lemma SameNameSharesEntry(h: Hospital, hid: string, name: string, room: string)
    requires h.bld.Some? && name in h.bld.value && h.dep.Some? && name in h.dep.value
    requires IsDigits(room) && RoomKey(hid, name, room) !in h.rooms
    ensures var r := RegisterRoom(RegisterRoom(h, hid, Bld, name, room), hid, Dep, name, room);
            r.rooms[RoomKey(hid, name, room)] == Room(None, Some(name), Some(name))
  {
    var once := RegisterRoom(h, hid, Bld, name, room);
    assert once.Lists(Dep) == h.Lists(Dep);
  }

  /** "007" and "7" are listed as the same number but get different keys. */
  lemma LeadingZeroKeyDiffers(h: Hospital, hid: string, elem: Element, name: string)
    requires h.Lists(elem).Some? && name in h.Lists(elem).value
    ensures RoomKey(hid, name, "007") != RoomKey(hid, name, "7")
    ensures RegisterRoom(h, hid, elem, name, "007").Lists(elem).value[name]
         == RegisterRoom(h, hid, elem, name, "7").Lists(elem).value[name]
  {
    assert |RoomKey(hid, name, "007")| != |RoomKey(hid, name, "7")|;
    assert DigitsValue("007") == 7 by {
      assert "007"[..2] == "00" && "00"[..1] == "0" && "0"[..0] == [];
    }
    assert DigitsValue("7") == 7 by { assert "7"[..0] == []; }
  }

  /** The index of the last c in s, -1 if there is none. */
  function LastIndex(s: string, c: char): (i: int)
    ensures -1 <= i < |s|
  {
    if s == [] then -1 else if s[|s| - 1] == c then |s| - 1 else LastIndex(s[..|s| - 1], c)
  }

  lemma {:induction false} LastIndexBeforeTail(a: string, b: string, c: char)
    requires c !in b
    ensures LastIndex(a + [c] + b, c) == |a|
    decreases |b|
  {
    var s := a + [c] + b;
    if b != [] {
      assert s[..|s| - 1] == a + [c] + b[..|b| - 1];
      assert s[|s| - 1] == b[|b| - 1];
      LastIndexBeforeTail(a, b[..|b| - 1], c);
    }
  }

  /** If c occurs in neither tail, a + [c] + b == x + [c] + y cuts both sides
      at the same place. */
  lemma CutAtLast(a: string, b: string, x: string, y: string, c: char)
    requires c !in b && c !in y && a + [c] + b == x + [c] + y
    ensures a == x && b == y
  {
    var s := a + [c] + b;
    LastIndexBeforeTail(a, b, c);
    LastIndexBeforeTail(x, y, c);
    assert a == s[..|a|] && x == s[..|x|];
    assert b == s[|a| + 1..] && y == s[|x| + 1..];
  }

  /** Within one hospital, rooms of digits get distinct keys for distinct
      (name, room) pairs: a name may contain '_', a digit room cannot. */
  lemma RoomKeysDistinct(hid: string, n1: string, r1: string, n2: string, r2: string)
    requires AllDigits(r1) && AllDigits(r2)
    requires RoomKey(hid, n1, r1) == RoomKey(hid, n2, r2)
    ensures n1 == n2 && r1 == r2
  {
    NoUnderscoreInDigits(r1);
    NoUnderscoreInDigits(r2);
    assert RoomKey(hid, n1, r1) == (hid + "_" + n1) + ['_'] + r1;
    assert RoomKey(hid, n2, r2) == (hid + "_" + n2) + ['_'] + r2;
    CutAtLast(hid + "_" + n1, r1, hid + "_" + n2, r2, '_');
    assert n1 == (hid + "_" + n1)[|hid| + 1..];
    assert n2 == (hid + "_" + n2)[|hid| + 1..];
  }

  lemma NoUnderscoreInDigits(s: string)
    requires AllDigits(s)
    ensures '_' !in s
  {
  }

  /** Only the name differs between two keys of the same hospital and room
      when the names differ: '_'-free names never collide. */
  lemma DifferentNamesDifferentKeys(hid: string, n1: string, n2: string, room: string)
    requires AllDigits(room) && n1 != n2
    ensures RoomKey(hid, n1, room) != RoomKey(hid, n2, room)
  {
    if RoomKey(hid, n1, room) == RoomKey(hid, n2, room) {
      RoomKeysDistinct(hid, n1, room, n2, room);
    }
  }

  /** A second add of the same name returns False and changes nothing. */
  lemma AddSectionTwice(h: Hospital, elem: Element, name: string)
    ensures var once := AddSection(h, elem, name).0;
            AddSection(once, elem, name) == (once, false)
  {
  }

  /** A successful add adds exactly that name, with an empty list, and keeps
      every other name's list. */
  lemma AddSectionAddsOnlyName(h: Hospital, elem: Element, name: string)
    requires AddSection(h, elem, name).1
    ensures var after := AddSection(h, elem, name).0.Lists(elem).value;
            var before := if h.Lists(elem).Some? then h.Lists(elem).value else map[];
            && after.Keys == before.Keys + {name}
            && name !in before && after[name] == []
            && forall n :: n in before ==> after[n] == before[n]
  {
  }

  /** After the dialog, every room id it was given has an entry with status
      None and the chosen names, whatever was stored under its key before;
      every other entry is as it was. */
  lemma DialogEntries(rooms0: map<string, Room>, hospitalName: string, roomIds: seq<string>,
                      roomDep: string, roomBld: string)
    ensures var entry := Room(None, NameOrNone(roomBld), NameOrNone(roomDep));
            var keys := DialogKeys(hospitalName, roomBld, roomDep, roomIds);
            var after := Overwritten(rooms0, keys, entry);
            && (forall r :: r in roomIds ==>
                  DialogKey(hospitalName, roomBld, roomDep, r) in after
                  && after[DialogKey(hospitalName, roomBld, roomDep, r)] == entry)
            && (forall k :: k in rooms0 && k !in keys ==> k in after && after[k] == rooms0[k])
            && after.Keys == rooms0.Keys + keys
  {
  }

  /** Adding the same rooms again leaves the entries as they were after the
      first time, while the lists get the ids a second time. */
  lemma DialogTwice(m: RoomLists, rooms0: map<string, Room>, hospitalName: string, roomIds: seq<string>,
                    roomDep: string, roomBld: string)
    requires roomDep != []
    ensures var entry := Room(None, NameOrNone(roomBld), NameOrNone(roomDep));
            var keys := DialogKeys(hospitalName, roomBld, roomDep, roomIds);
            Overwritten(Overwritten(rooms0, keys, entry), keys, entry) == Overwritten(rooms0, keys, entry)
    ensures ListsAfterDialog(ListsAfterDialog(m, roomDep, roomIds), roomDep, roomIds)[roomDep]
         == (if roomDep in m then m[roomDep] else []) + StrIds(roomIds) + StrIds(roomIds)
  {
  }

  /** The dialog's key ignores the department whenever a building or a
      department is chosen: two departments, one building, one key. */
  lemma DialogKeyIgnoresDepartment(hospitalName: string, roomBld: string, dep1: string, dep2: string, roomId: string)
    requires roomBld != [] || (dep1 != [] && dep2 != [])
    ensures DialogKey(hospitalName, roomBld, dep1, roomId) == DialogKey(hospitalName, roomBld, dep2, roomId)
  {
  }

  /** With a department but no building, the dialog's key has an empty
      building part, so it differs from the key register_unique_room gives
      the same room when read under that department. */
  lemma DialogKeyDiffersFromReadKey(hospitalName: string, roomDep: string, roomId: string)
    requires roomDep != [] && AllDigits(roomId)
    ensures DialogKey(hospitalName, [], roomDep, roomId) == RoomKey(hospitalName, [], roomId)
    ensures DialogKey(hospitalName, [], roomDep, roomId) != RoomKey(hospitalName, roomDep, roomId)
  {
    DifferentNamesDifferentKeys(hospitalName, [], roomDep, roomId);
  }

  // ---------------------------------------------------------------------
  // The global `hospital` dict (shots.py:86)

  /** The hospital dict: its keys in insertion order and the record under
      each key. */
  datatype Registry = Registry(order: seq<string>, table: map<string, Hospital>)
  {
    /** A dict: every key listed once, and exactly the keys listed. */
    predicate Valid()
    {
      && (forall i, j :: 0 <= i < j < |order| ==> order[i] != order[j])
      && (forall k :: k in table ==> k in order)
      && (forall i :: 0 <= i < |order| ==> order[i] in table)
    }

    /** hospital[hid] = h: a new key goes last, a key already there keeps
        its place. */
    function Put(hid: string, h: Hospital): Registry
    {
      Registry(if hid in table then order else order + [hid], table[hid := h])
    }
  }

  const EmptyRegistry := Registry([], map[])

  /** An assignment keeps the dict a dict, stores h under hid, keeps every
      other record and changes the order only by appending a new key. */
  lemma PutValid(reg: Registry, hid: string, h: Hospital)
    requires reg.Valid()
    ensures var r := reg.Put(hid, h);
            && r.Valid()
            && r.table.Keys == reg.table.Keys + {hid} && r.table[hid] == h
            && (forall k :: k in reg.table && k != hid ==> r.table[k] == reg.table[k])
            && r.order == (if hid in reg.table then reg.order else reg.order + [hid])
  {
    var r := reg.Put(hid, h);
    if hid !in reg.table {
      forall i, j | 0 <= i < j < |r.order|
        ensures r.order[i] != r.order[j]
      {
        if j == |reg.order| {
          assert r.order[i] == reg.order[i];
        }
      }
    }
  }

  /** The part of PutValid the stateful code needs at each assignment. */
  lemma PutKeepsValid(reg: Registry, hid: string, h: Hospital)
    requires reg.Valid()
    ensures reg.Put(hid, h).Valid() && hid in reg.Put(hid, h).table && reg.Put(hid, h).table[hid] == h
  {
    PutValid(reg, hid, h);
  }

  /** Storing the record a key already holds changes nothing. */
  lemma PutSame(reg: Registry, hid: string)
    requires hid in reg.table
    ensures reg.Put(hid, reg.table[hid]) == reg
  {
    assert reg.table[hid := reg.table[hid]] == reg.table;
  }

  /** Assigning the same key twice is assigning the second value once. */
  lemma PutTwice(reg: Registry, hid: string, a: Hospital, b: Hospital)
    ensures reg.Put(hid, a).Put(hid, b) == reg.Put(hid, b)
  {
    assert reg.table[hid := a][hid := b] == reg.table[hid := b];
  }
}
