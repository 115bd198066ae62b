/** read_config_from (shots.py:264-490) over a settings.ini that configparser
    has already parsed: the [OPTIONS] gate and its defaults, the [RECENT]
    list, the walk over the hospital sections with register_unique_room,
    and the choice of the active hospital. The functions here say what one
    call computes; Session.dfy runs the same steps on shot's state. */
module ConfigRead {
  import opened Text
  import opened HospitalModel

  // ---------------------------------------------------------------------
  // The parsed file

  /** One `key = value` line; None for a key written without a value, which
      allow_no_value=True (shots.py:271) lets through. */
  datatype Entry = Entry(key: string, value: Option<string>)

  datatype Section = Section(name: string, entries: seq<Entry>)

  /** config.sections(), in file order, with their lines. */
  type Ini = seq<Section>

  function SectionNames(secs: seq<Section>): seq<string>
  {
    seq(|secs|, i requires 0 <= i < |secs| => secs[i].name)
  }

  function KeysOf(entries: seq<Entry>): seq<string>
  {
    seq(|entries|, i requires 0 <= i < |entries| => entries[i].key)
  }

  /** configparser never yields two sections with the same name. */
  predicate DistinctNames(secs: seq<Section>)
  {
    forall i, j :: 0 <= i < j < |secs| ==> secs[i].name != secs[j].name
  }

  /** config[name]: the section called `name`. */
  function FindSection(ini: Ini, name: string): Option<Section>
  {
    if ini == [] then None
    else if ini[0].name == name then Some(ini[0])
    else FindSection(ini[1..], name)
  }

  /** section[key]: None when the key is absent, Some(None) when it has no value. */
  function Lookup(entries: seq<Entry>, key: string): Option<Option<string>>
  {
    if entries == [] then None
    else if entries[0].key == key then Some(entries[0].value)
    else Lookup(entries[1..], key)
  }

  /** config.get(section, key, fallback=...): the fallback only for an absent key. */
  function GetOr(entries: seq<Entry>, key: string, fallback: Option<string>): Option<string>
  {
    match Lookup(entries, key)
    case None => fallback
    case Some(v) => v
  }

  // ---------------------------------------------------------------------
  // [OPTIONS] and [RECENT] (shots.py:274-296)

  datatype Options = Options(user: string, language: string, hospital: Option<string>, unique: Option<string>)

  /** None where read_config_from returns False: no [OPTIONS], no user (absent
      or without a value), or a language key without a value. */
  function ReadOptions(ini: Ini): Option<Options>
  {
    match FindSection(ini, "OPTIONS")
    case None => None
    case Some(opts) =>
      var user := GetOr(opts.entries, "user", None);
      var language := GetOr(opts.entries, "language", Some("English"));
      if user.None? || language.None? then None
      else Some(Options(user.value, language.value,
                        GetOr(opts.entries, "hospital", None),
                        GetOr(opts.entries, "unique", Some("FNR"))))
  }

  /** The values of [RECENT] in file order; [] without the section. */
  function RecentFiles(ini: Ini): seq<Option<string>>
  {
    match FindSection(ini, "RECENT")
    case None => []
    case Some(s) => seq(|s.entries|, i requires 0 <= i < |s.entries| => s.entries[i].value)
  }

  // ---------------------------------------------------------------------
  // One hospital section (shots.py:392-439)

  /** The names a hospital section links to, or not a hospital. */
  datatype Links = NotHospital | Links(buildings: string, departments: string)

  /** The test of shots.py:394-398. `'buildings' and 'departments' in keys`
      only asks for 'departments'; the 'buildings' lookup that follows then
      raises KeyError when that key is missing; `hosp_blds and hosp_deps in
      sections` asks for a non-empty buildings value and an existing
      departments section. */
  function HospitalLinks(ini: Ini, s: Section): Result<Links>
  {
    match Lookup(s.entries, "departments")
    case None => Ok(NotHospital)
    case Some(deps) =>
      match Lookup(s.entries, "buildings")
      case None => Err(KeyError)
      case Some(blds) =>
        if blds.Some? && blds.value != [] && deps.Some? && deps.value in SectionNames(ini)
        then Ok(Links(blds.value, deps.value))
        else Ok(NotHospital)
  }

  /** A section the walk loads as a hospital. */
  predicate IsHospital(ini: Ini, s: Section)
  {
    s.name != "OPTIONS" && s.name != "RECENT" && HospitalLinks(ini, s) != Ok(NotHospital)
    && HospitalLinks(ini, s).Ok?
  }

  /** hospital[id]['info'] (shots.py:405-413): every key must be there. */
  function LoadInfo(s: Section): Result<Info>
  {
    var e := s.entries;
    var name, full, created := Lookup(e, "name"), Lookup(e, "fullname"), Lookup(e, "created");
    var createdBy, updated := Lookup(e, "created-by"), Lookup(e, "updated");
    var updatedBy, version := Lookup(e, "updated-by"), Lookup(e, "version");
    if name.None? || full.None? || created.None? || createdBy.None?
       || updated.None? || updatedBy.None? || version.None?
    then Err(KeyError)
    else Ok(Info(name.value, full.value, created.value, createdBy.value,
                 updated.value, updatedBy.value, version.value))
  }

  /** The pieces loop of shots.py:431-439 for the list `name`: a piece of
      digits only is registered; a piece with a hyphen raises TypeError at
      int(list), which is caught, so it is dropped like every other piece. */
  function RegisterPieces(h: Hospital, hid: string, elem: Element, name: string, pieces: seq<string>): (r: Hospital)
    requires h.Lists(elem).Some? && name in h.Lists(elem).value
    ensures r.Lists(elem).Some? && name in r.Lists(elem).value
    decreases |pieces|
  {
    if pieces == [] then h
    else
      var before := RegisterPieces(h, hid, elem, name, pieces[..|pieces| - 1]);
      var piece := pieces[|pieces| - 1];
      if IsDigits(piece) then RegisterRoom(before, hid, elem, name, piece) else before
  }

  /** One `name = rooms` line of a buildings or departments section: the
      name's list is (re)set to [] and the value split on ','; a key without
      a value raises AttributeError at None.split. */
  function LoadEntry(h: Hospital, hid: string, elem: Element, e: Entry): (r: Result<Hospital>)
    requires h.Lists(elem).Some?
    ensures r.Ok? ==> r.value.Lists(elem).Some?
  {
    if e.value.None? then Err(AttributeError)
    else
      var cleared := h.WithLists(elem, h.Lists(elem).value[e.key := []]);
      Ok(RegisterPieces(cleared, hid, elem, e.key, Split(e.value.value, ',')))
  }

  /** The lines of a section one after the other; the first error ends it. */
  function LoadEntries(h: Hospital, hid: string, elem: Element, entries: seq<Entry>): (r: Result<Hospital>)
    requires h.Lists(elem).Some?
    ensures r.Ok? ==> r.value.Lists(elem).Some?
    decreases |entries|
  {
    if entries == [] then Ok(h)
    else
      match LoadEntries(h, hid, elem, entries[..|entries| - 1])
      case Err(e) => Err(e)
      case Ok(before) => LoadEntry(before, hid, elem, entries[|entries| - 1])
  }

  /** hospital[id][elem] = {} and then the lines of the linked section;
      config[name] raises KeyError when there is no such section. */
  function LoadElement(ini: Ini, h: Hospital, hid: string, elem: Element, sectionName: string): Result<Hospital>
  {
    match FindSection(ini, sectionName)
    case None => Err(KeyError)
    case Some(s) => LoadEntries(h.WithLists(elem, map[]), hid, elem, s.entries)
  }

  /** The record built for a hospital section: its info, then 'bld' from the
      buildings section, then 'dep' from the departments section. */
  function LoadHospital(ini: Ini, s: Section, links: Links): Result<Hospital>
    requires links.Links?
  {
    match LoadInfo(s)
    case Err(e) => Err(e)
    case Ok(info) =>
      match LoadElement(ini, Hospital(Some(info), None, None, map[]), s.name, Bld, links.buildings)
      case Err(e) => Err(e)
      case Ok(withBuildings) => LoadElement(ini, withBuildings, s.name, Dep, links.departments)
  }

  // ---------------------------------------------------------------------
  // The walk over all sections (shots.py:392-439)

  /** The hospital dict and number_of_hospitals_in_settings. */
  datatype Walked = Walked(reg: Registry, count: nat)

  function WalkStep(ini: Ini, w: Walked, s: Section): Result<Walked>
  {
    if s.name == "OPTIONS" || s.name == "RECENT" then Ok(w)
    else
      match HospitalLinks(ini, s)
      case Err(e) => Err(e)
      case Ok(links) =>
        if links.NotHospital? then Ok(w)
        else
          match LoadHospital(ini, s, links)
          case Err(e) => Err(e)
          case Ok(h) => Ok(Walked(w.reg.Put(s.name, h), w.count + 1))
  }

  /** The sections `secs` walked in order from the dict reg0. */
  function Walk(ini: Ini, secs: seq<Section>, reg0: Registry): Result<Walked>
    decreases |secs|
  {
    if secs == [] then Ok(Walked(reg0, 0))
    else
      match Walk(ini, secs[..|secs| - 1], reg0)
      case Err(e) => Err(e)
      case Ok(w) => WalkStep(ini, w, secs[|secs| - 1])
  }

  // ---------------------------------------------------------------------
  // The whole call (shots.py:264-490)

  /** shot['conf_user'], ['conf_lang'], ['conf_uniq'], ['conf_hosp'] and
      ['conf_recent']; recent is None when reset at start-up. */
  datatype Conf = Conf(user: Option<string>, language: string, unique: Option<string>,
                       hospital: Option<string>, recent: Option<seq<Option<string>>>)

  /** The values set when the session runs unconfigured (shots.py:2608-2613). */
  const DefaultConf := Conf(None, "English", Some("FNR"), None, None)

  /** How a call ends: False before anything is touched; None after the
      dict and shot are set, `active` being the key whose record
      shot['hospital'] now refers to (None when it is set to None); or an
      exception. */
  datatype ReadResult =
    | Rejected
    | Loaded(reg: Registry, fromSettings: bool, active: Option<string>, conf: Conf)
    | Failed(error: PyError)

  /** The tail of the call (shots.py:456-490) once the walk has stored the
      records of w and counted them: the hospital named in [OPTIONS], else
      the first key of the dict when a hospital section was read, becomes
      the active one. */
  function Conclude(opts: Options, w: Walked, recent: seq<Option<string>>): (r: ReadResult)
    requires w.count > 0 ==> w.reg.order != []
    ensures !r.Rejected?
  {
    var fromSettings := opts.hospital.Some? || w.count > 0;
    var chosen := if opts.hospital.Some? then opts.hospital.value
                  else if w.count > 0 then w.reg.order[0] else "";
    if fromSettings && chosen !in w.reg.table then Failed(KeyError)
    else
      var active := if fromSettings then Some(chosen) else None;
      Loaded(w.reg, fromSettings, active,
             Conf(Some(opts.user), opts.language, opts.unique, active, Some(recent)))
  }

  function ReadConfig(ini: Ini, reg0: Registry): ReadResult
    requires reg0.Valid()
  {
    match ReadOptions(ini)
    case None => Rejected
    case Some(opts) =>
      match Walk(ini, ini, reg0)
      case Err(e) => Failed(e)
      case Ok(w) =>
        WalkValid(ini, ini, reg0, w);
        Conclude(opts, w, RecentFiles(ini))
  }

  // ---------------------------------------------------------------------
  // Lemmas: lookups

  /** config[name] finds a section exactly when one has that name, and the
      one it finds has that name and is in the file. */
  lemma {:induction false} FindSectionFound(ini: Ini, name: string)
    ensures FindSection(ini, name).Some? <==> name in SectionNames(ini)
    ensures FindSection(ini, name).Some? ==>
              FindSection(ini, name).value in ini && FindSection(ini, name).value.name == name
  {
    if ini != [] {
      FindSectionFound(ini[1..], name);
      assert SectionNames(ini) == [ini[0].name] + SectionNames(ini[1..]);
    }
  }

  /** A key is found exactly when the section has a line with it, and the
      value found is that of its first line. */
  lemma {:induction false} LookupFound(entries: seq<Entry>, key: string)
    ensures Lookup(entries, key).Some? <==> key in KeysOf(entries)
    ensures Lookup(entries, key).Some? ==>
              exists i :: 0 <= i < |entries| && entries[i].key == key
                          && Lookup(entries, key).value == entries[i].value
                          && key !in KeysOf(entries[..i])
  {
    if entries != [] {
      LookupFound(entries[1..], key);
      assert KeysOf(entries) == [entries[0].key] + KeysOf(entries[1..]);
      assert entries[..0] == [];
      if entries[0].key != key && Lookup(entries, key).Some? {
        var i :| 0 <= i < |entries[1..]| && entries[1..][i].key == key
                 && Lookup(entries[1..], key).value == entries[1..][i].value
                 && key !in KeysOf(entries[1..][..i]);
        assert KeysOf(entries[..i + 1]) == [entries[0].key] + KeysOf(entries[1..][..i]);
      }
    }
  }

  // ---------------------------------------------------------------------
  // Lemmas: [OPTIONS] and [RECENT]

  /** read_config_from returns False at the gate exactly when [OPTIONS] is
      missing, its user is absent or has no value, or its language key is
      there without a value (an absent language is allowed). */
  lemma OptionsGate(ini: Ini)
    ensures ReadOptions(ini).None? <==>
              match FindSection(ini, "OPTIONS")
              case None => true
              case Some(s) =>
                || Lookup(s.entries, "user").None? || Lookup(s.entries, "user").value.None?
                || Lookup(s.entries, "language") == Some(None)
  {
  }

  /** The values read: the user as written; a missing language is 'English',
      a missing unique 'FNR', a missing hospital None; a key written without
      a value gives None for hospital and unique. */
  lemma OptionsDefaults(ini: Ini, s: Section, o: Options)
    requires FindSection(ini, "OPTIONS") == Some(s) && ReadOptions(ini) == Some(o)
    ensures Lookup(s.entries, "user") == Some(Some(o.user))
    ensures Lookup(s.entries, "language").None? ==> o.language == "English"
    ensures Lookup(s.entries, "language").Some? ==> Lookup(s.entries, "language") == Some(Some(o.language))
    ensures Lookup(s.entries, "unique").None? ==> o.unique == Some("FNR")
    ensures Lookup(s.entries, "unique").Some? ==> o.unique == Lookup(s.entries, "unique").value
    ensures o.hospital == if Lookup(s.entries, "hospital").None? then None else Lookup(s.entries, "hospital").value
  {
  }

  /** [RECENT] is read line by line in file order, values without a value as
      None; no section gives the empty list. */
  lemma RecentInOrder(ini: Ini)
    ensures match FindSection(ini, "RECENT")
            case None => RecentFiles(ini) == []
            case Some(s) => |RecentFiles(ini)| == |s.entries|
                            && forall i :: 0 <= i < |s.entries| ==> RecentFiles(ini)[i] == s.entries[i].value
  {
  }

  // ---------------------------------------------------------------------
  // Lemmas: the hospital test

  /** A section is linked to buildings b and departments d exactly when it
      has a non-empty buildings value b and a departments value d naming a
      section; the buildings section need not exist. The test raises exactly
      when departments is there and buildings is not. */
  lemma HospitalTest(ini: Ini, s: Section, b: string, d: string)
    ensures HospitalLinks(ini, s) == Ok(Links(b, d)) <==>
              && Lookup(s.entries, "buildings") == Some(Some(b)) && b != []
              && Lookup(s.entries, "departments") == Some(Some(d)) && d in SectionNames(ini)
    ensures HospitalLinks(ini, s).Err? <==>
              Lookup(s.entries, "departments").Some? && Lookup(s.entries, "buildings").None?
    ensures HospitalLinks(ini, s).Err? ==> HospitalLinks(ini, s).error == KeyError
  {
  }

  /** Without a departments key a section is never a hospital, whatever its
      buildings key says. */
  lemma DepartmentsDecides(ini: Ini, s: Section)
    requires "departments" !in KeysOf(s.entries)
    ensures HospitalLinks(ini, s) == Ok(NotHospital)
  {
    LookupFound(s.entries, "departments");
  }

  /** A linked buildings section that does not exist raises KeyError once
      the info is read. */
  lemma MissingBuildingsRaises(ini: Ini, s: Section, links: Links)
    requires links.Links? && LoadInfo(s).Ok? && links.buildings !in SectionNames(ini)
    ensures LoadHospital(ini, s, links) == Err(KeyError)
  {
    FindSectionFound(ini, links.buildings);
  }

  /** A missing info key raises KeyError before anything else is read. */
  lemma MissingInfoRaises(ini: Ini, s: Section, links: Links, key: string)
    requires links.Links?
    requires key in ["name", "fullname", "created", "created-by", "updated", "updated-by", "version"]
    requires key !in KeysOf(s.entries)
    ensures LoadHospital(ini, s, links) == Err(KeyError)
  {
    LookupFound(s.entries, key);
  }

  // ---------------------------------------------------------------------
  // Lemmas: the pieces loop

  /** The pieces that are registered: those of digits only, in order. */
  function DigitPieces(pieces: seq<string>): (r: seq<string>)
    ensures forall i :: 0 <= i < |r| ==> IsDigits(r[i])
  {
    if pieces == [] then []
    else if IsDigits(pieces[|pieces| - 1]) then DigitPieces(pieces[..|pieces| - 1]) + [pieces[|pieces| - 1]]
    else DigitPieces(pieces[..|pieces| - 1])
  }

  /** int(piece) of each digit piece. */
  function ReadIds(pieces: seq<string>): (r: seq<RoomId>)
    requires forall i :: 0 <= i < |pieces| ==> IsDigits(pieces[i])
  {
    if pieces == [] then []
    else
      var last := pieces[|pieces| - 1];
      assert IsDigits(last);
      ReadIds(pieces[..|pieces| - 1]) + [IntId(DigitsValue(last))]
  }

  /** The room keys of the digit pieces. */
  function PieceKeys(hid: string, name: string, pieces: seq<string>): set<string>
  {
    set p | p in pieces && IsDigits(p) :: RoomKey(hid, name, p)
  }

  /** A digit piece at the end adds its number at the end. */
  lemma ReadIdsSnoc(init: seq<string>, piece: string)
    requires IsDigits(piece)
    ensures DigitPieces(init + [piece]) == DigitPieces(init) + [piece]
    ensures ReadIds(DigitPieces(init + [piece])) == ReadIds(DigitPieces(init)) + [IntId(DigitsValue(piece))]
  {
    assert (init + [piece])[..|init|] == init;
  }

  lemma AppendToNamed(m: map<string, seq<RoomId>>, name: string, ids: seq<RoomId>, x: RoomId)
    requires name in m
    ensures var once := m[name := m[name] + ids];
            once[name := once[name] + [x]] == m[name := m[name] + (ids + [x])]
  {
    assert (m[name] + ids) + [x] == m[name] + (ids + [x]);
  }

  /** The name's list gets int(piece) of every digit piece, in order and
      duplicates kept; the other names, the other grouping and the info are
      untouched. */
  lemma {:induction false} RegisterPiecesLists(h: Hospital, hid: string, elem: Element, name: string, pieces: seq<string>)
    requires h.Lists(elem).Some? && name in h.Lists(elem).value
    ensures var lists := h.Lists(elem).value;
            var r := RegisterPieces(h, hid, elem, name, pieces);
            && r.Lists(elem).value == lists[name := lists[name] + ReadIds(DigitPieces(pieces))]
            && r.Lists(Other(elem)) == h.Lists(Other(elem)) && r.info == h.info
    decreases |pieces|
  {
    var lists := h.Lists(elem).value;
    if pieces != [] {
      var init, piece := pieces[..|pieces| - 1], pieces[|pieces| - 1];
      RegisterPiecesLists(h, hid, elem, name, init);
      var before := RegisterPieces(h, hid, elem, name, init);
      if IsDigits(piece) {
        RegisterRoomEffect(before, hid, elem, name, piece);
        ReadIdsSnoc(init, piece);
        AppendToNamed(lists, name, ReadIds(DigitPieces(init)), IntId(DigitsValue(piece)));
      }
    } else {
      assert lists[name] + [] == lists[name];
      assert lists[name := lists[name]] == lists;
    }
  }

  lemma PieceKeysSnoc(hid: string, name: string, init: seq<string>, piece: string)
    ensures PieceKeys(hid, name, init + [piece])
         == PieceKeys(hid, name, init) + (if IsDigits(piece) then {RoomKey(hid, name, piece)} else {})
  {
    assert forall p :: p in init + [piece] <==> p in init || p == piece;
  }

  /** The room entries `rooms` after registrations under the keys `keys`
      into the list `name`, starting from `rooms0`: exactly those keys are
      added; each of them names the list; an entry that was there keeps its
      status and a new one has status None; every other entry is untouched. */
  predicate RegisteredUnder(rooms0: map<string, Room>, rooms: map<string, Room>, keys: set<string>,
                            elem: Element, name: string)
  {
    && rooms.Keys == rooms0.Keys + keys
    && (forall k :: k in keys ==> rooms[k].Owner(elem) == Some(name))
    && (forall k :: k in rooms ==> rooms[k].status == if k in rooms0 then rooms0[k].status else None)
    && (forall k :: k in rooms0 && k !in keys ==> rooms[k] == rooms0[k])
  }

  /** One more registration extends RegisteredUnder by its key. */
  lemma RegisteredStep(rooms0: map<string, Room>, before: Hospital, keys: set<string>,
                       hid: string, elem: Element, name: string, room: string)
    requires before.Lists(elem).Some? && name in before.Lists(elem).value && IsDigits(room)
    requires RegisteredUnder(rooms0, before.rooms, keys, elem, name)
    ensures RegisteredUnder(rooms0, RegisterRoom(before, hid, elem, name, room).rooms,
                            keys + {RoomKey(hid, name, room)}, elem, name)
  {
    RegisterRoomEffect(before, hid, elem, name, room);
  }

  /** The entries after the pieces loop are RegisteredUnder the keys of its
      digit pieces. */
  lemma {:induction false} RegisterPiecesRooms(h: Hospital, hid: string, elem: Element, name: string, pieces: seq<string>)
    requires h.Lists(elem).Some? && name in h.Lists(elem).value
    ensures RegisteredUnder(h.rooms, RegisterPieces(h, hid, elem, name, pieces).rooms,
                            PieceKeys(hid, name, pieces), elem, name)
    decreases |pieces|
  {
    if pieces != [] {
      var init, piece := pieces[..|pieces| - 1], pieces[|pieces| - 1];
      RegisterPiecesRooms(h, hid, elem, name, init);
      assert pieces == init + [piece];
      PieceKeysSnoc(hid, name, init, piece);
      if IsDigits(piece) {
        RegisteredStep(h.rooms, RegisterPieces(h, hid, elem, name, init), PieceKeys(hid, name, init),
                       hid, elem, name, piece);
      }
    } else {
      assert PieceKeys(hid, name, pieces) == {};
    }
  }

  /** A piece with a hyphen is never registered: one more such piece after
      any others leaves the record as the others made it, so ranges are not
      expanded on read. */
  lemma HyphenNotRegistered(h: Hospital, hid: string, elem: Element, name: string, pieces: seq<string>, piece: string)
    requires h.Lists(elem).Some? && name in h.Lists(elem).value
    requires '-' in piece
    ensures RegisterPieces(h, hid, elem, name, pieces + [piece]) == RegisterPieces(h, hid, elem, name, pieces)
  {
    assert (pieces + [piece])[..|pieces|] == pieces;
    assert !IsDigits(piece);
  }

  /** When no piece is of digits only (ranges, words, pieces with spaces)
      the record is unchanged. */
  lemma {:induction false} NothingRegistered(h: Hospital, hid: string, elem: Element, name: string, pieces: seq<string>)
    requires h.Lists(elem).Some? && name in h.Lists(elem).value
    requires forall i :: 0 <= i < |pieces| ==> !IsDigits(pieces[i])
    ensures RegisterPieces(h, hid, elem, name, pieces) == h
    decreases |pieces|
  {
    if pieces != [] {
      NothingRegistered(h, hid, elem, name, pieces[..|pieces| - 1]);
    }
  }

  /** Three comma-free pieces joined by commas split back into those three. */
  lemma ThreePieces(a: string, b: string, c: string)
    requires ',' !in a && ',' !in b && ',' !in c
    ensures Split(a + "," + b + "," + c, ',') == [a, b, c]
  {
    assert a + "," + b + "," + c == a + [','] + (b + [','] + c);
    SplitAround(a, ',', b + [','] + c);
    SplitAround(b, ',', c);
    SplitWithoutSeparator(a, ',');
    SplitWithoutSeparator(b, ',');
    SplitWithoutSeparator(c, ',');
  }

  /** Of three pieces where only the first is of digits, only the first is
      registered. */
  lemma FirstOfThreeRegistered(a: string, b: string, c: string)
    requires IsDigits(a) && !IsDigits(b) && !IsDigits(c)
    ensures DigitPieces([a, b, c]) == [a]
  {
    assert DigitPieces([a]) == [a] by { assert [a][..0] == []; }
    assert DigitPieces([a, b]) == [a] by { assert [a, b][..1] == [a]; }
    assert [a, b, c][..2] == [a, b];
  }

  /** "200, 304,400-402" registers 200 only: " 304" has a space and
      "400-402" a hyphen. */
  lemma PiecesExample()
    ensures DigitPieces(Split("200, 304,400-402", ',')) == ["200"]
  {
    var a, b, c := "200", " 304", "400-402";
    assert a + "," + b + "," + c == "200, 304,400-402";
    ThreePieces(a, b, c);
    assert !IsDigits(c) by { assert c[3] == '-'; }
    assert !IsDigits(b) by { assert b[0] == ' '; }
    FirstOfThreeRegistered(a, b, c);
  }

  // ---------------------------------------------------------------------
  // Lemmas: the section lines

  /** Reading a section's lines raises exactly when one of them has no value,
      and then raises AttributeError. */
  lemma {:induction false} LoadEntriesFails(h: Hospital, hid: string, elem: Element, entries: seq<Entry>)
    requires h.Lists(elem).Some?
    ensures LoadEntries(h, hid, elem, entries).Err? <==> exists i :: 0 <= i < |entries| && entries[i].value.None?
    ensures LoadEntries(h, hid, elem, entries).Err? ==> LoadEntries(h, hid, elem, entries).error == AttributeError
    decreases |entries|
  {
    if entries != [] {
      var init := entries[..|entries| - 1];
      LoadEntriesFails(h, hid, elem, init);
      assert forall i :: 0 <= i < |init| ==> init[i] == entries[i];
      if (exists i :: 0 <= i < |entries| && entries[i].value.None?) && entries[|entries| - 1].value.Some? {
        var i :| 0 <= i < |entries| && entries[i].value.None?;
        assert init[i] == entries[i];
      }
    }
  }

  /** Each key of a section with distinct keys ends up with exactly the
      numbers of its own digit pieces: an earlier list for the same name is
      replaced, not extended. */
  lemma {:induction false} LoadEntriesLists(h: Hospital, hid: string, elem: Element, entries: seq<Entry>, k: nat)
    requires h.Lists(elem).Some? && LoadEntries(h, hid, elem, entries).Ok?
    requires k < |entries| && entries[k].key !in KeysOf(entries[k + 1..])
    ensures entries[k].value.Some?
    ensures var r := LoadEntries(h, hid, elem, entries).value.Lists(elem).value;
            entries[k].key in r && r[entries[k].key] == ReadIds(DigitPieces(Split(entries[k].value.value, ',')))
    decreases |entries|
  {
    var init, last := entries[..|entries| - 1], entries[|entries| - 1];
    var before := LoadEntries(h, hid, elem, init).value;
    assert last.value.Some?;
    var cleared := before.WithLists(elem, before.Lists(elem).value[last.key := []]);
    RegisterPiecesLists(cleared, hid, elem, last.key, Split(last.value.value, ','));
    if k + 1 < |entries| {
      assert init[k] == entries[k];
      assert KeysOf(entries[k + 1..]) == KeysOf(init[k + 1..]) + [last.key];
      LoadEntriesLists(h, hid, elem, init, k);
    } else {
      assert last == entries[k];
    }
  }

  /** One more line on a prefix that has not failed. */
  lemma LoadEntriesPrefixStep(h: Hospital, hid: string, elem: Element, entries: seq<Entry>, i: nat, before: Hospital)
    requires h.Lists(elem).Some? && i < |entries|
    requires LoadEntries(h, hid, elem, entries[..i]) == Ok(before)
    ensures before.Lists(elem).Some?
    ensures LoadEntries(h, hid, elem, entries[..i + 1]) == LoadEntry(before, hid, elem, entries[i])
  {
    assert entries[..i + 1][..i] == entries[..i];
  }

  /** Once a prefix of the lines fails, the whole section fails the same way. */
  lemma {:induction false} LoadEntriesErrorEnds(h: Hospital, hid: string, elem: Element, entries: seq<Entry>, n: nat)
    requires h.Lists(elem).Some? && n <= |entries| && LoadEntries(h, hid, elem, entries[..n]).Err?
    ensures LoadEntries(h, hid, elem, entries) == LoadEntries(h, hid, elem, entries[..n])
    decreases |entries| - n
  {
    if n < |entries| {
      var init := entries[..|entries| - 1];
      assert init[..n] == entries[..n];
      LoadEntriesErrorEnds(h, hid, elem, init, n);
    } else {
      assert entries[..n] == entries;
    }
  }

  // ---------------------------------------------------------------------
  // Lemmas: the walk

  /** One more section on a prefix that has not failed. */
  lemma WalkPrefixStep(ini: Ini, secs: seq<Section>, reg0: Registry, i: nat, w: Walked)
    requires i < |secs| && Walk(ini, secs[..i], reg0) == Ok(w)
    ensures Walk(ini, secs[..i + 1], reg0) == WalkStep(ini, w, secs[i])
  {
    assert secs[..i + 1][..i] == secs[..i];
  }

  /** Once a prefix of the sections fails, the whole walk fails the same way. */
  lemma {:induction false} WalkErrorEnds(ini: Ini, secs: seq<Section>, reg0: Registry, n: nat)
    requires n <= |secs| && Walk(ini, secs[..n], reg0).Err?
    ensures Walk(ini, secs, reg0) == Walk(ini, secs[..n], reg0)
    decreases |secs| - n
  {
    if n < |secs| {
      var init := secs[..|secs| - 1];
      assert init[..n] == secs[..n];
      WalkErrorEnds(ini, init, reg0, n);
    } else {
      assert secs[..n] == secs;
    }
  }

  /** One section either leaves the walk as it is or, for a hospital
      section, stores a record under its name and counts it. */
  lemma WalkStepShape(ini: Ini, w: Walked, s: Section, w': Walked)
    requires WalkStep(ini, w, s) == Ok(w')
    ensures !IsHospital(ini, s) ==> w' == w
    ensures IsHospital(ini, s) ==>
              s.name in w'.reg.table && w' == Walked(w.reg.Put(s.name, w'.reg.table[s.name]), w.count + 1)
  {
  }

  /** The walk over secs is the walk over all but the last section, then
      the last one. */
  lemma WalkLast(ini: Ini, secs: seq<Section>, reg0: Registry, w: Walked)
    requires secs != [] && Walk(ini, secs, reg0) == Ok(w)
    ensures Walk(ini, secs[..|secs| - 1], reg0).Ok?
    ensures WalkStep(ini, Walk(ini, secs[..|secs| - 1], reg0).value, secs[|secs| - 1]) == Ok(w)
  {
  }

  /** Storing a record after a valid walk keeps what WalkValid states. */
  lemma StoredValid(reg0: Registry, before: Walked, hid: string, w: Walked)
    requires before.reg.Valid()
    requires |reg0.order| <= |before.reg.order| && before.reg.order[..|reg0.order|] == reg0.order
    requires hid in w.reg.table && w == Walked(before.reg.Put(hid, w.reg.table[hid]), before.count + 1)
    ensures w.reg.Valid() && w.reg.order != []
    ensures |reg0.order| <= |w.reg.order| && w.reg.order[..|reg0.order|] == reg0.order
  {
    PutValid(before.reg, hid, w.reg.table[hid]);
    assert w.reg.order[..|before.reg.order|] == before.reg.order;
    assert w.reg.order[..|reg0.order|] == before.reg.order[..|reg0.order|];
  }

  /** The walk keeps the dict a dict, keeps the keys it started with in
      front, and counts a hospital only when it stored one. */
  lemma {:induction false} WalkValid(ini: Ini, secs: seq<Section>, reg0: Registry, w: Walked)
    requires reg0.Valid() && Walk(ini, secs, reg0) == Ok(w)
    ensures w.reg.Valid()
    ensures |reg0.order| <= |w.reg.order| && w.reg.order[..|reg0.order|] == reg0.order
    ensures w.count > 0 ==> w.reg.order != []
    decreases |secs|
  {
    if secs != [] {
      var init, s := secs[..|secs| - 1], secs[|secs| - 1];
      WalkLast(ini, secs, reg0, w);
      var before := Walk(ini, init, reg0).value;
      WalkValid(ini, init, reg0, before);
      WalkStepShape(ini, before, s, w);
      if IsHospital(ini, s) {
        StoredValid(reg0, before, s.name, w);
      }
    } else {
      assert reg0.order[..|reg0.order|] == reg0.order;
    }
  }

  /** The names of the sections loaded as hospitals, in file order. */
  function HospitalNames(ini: Ini, secs: seq<Section>): seq<string>
  {
    if secs == [] then []
    else if IsHospital(ini, secs[|secs| - 1]) then HospitalNames(ini, secs[..|secs| - 1]) + [secs[|secs| - 1].name]
    else HospitalNames(ini, secs[..|secs| - 1])
  }

  lemma {:induction false} HospitalNamesFrom(ini: Ini, secs: seq<Section>)
    ensures forall n :: n in HospitalNames(ini, secs) ==> n in SectionNames(secs)
    decreases |secs|
  {
    if secs != [] {
      var init := secs[..|secs| - 1];
      HospitalNamesFrom(ini, init);
      assert forall n :: n in SectionNames(init) ==> n in SectionNames(secs) by {
        assert forall i :: 0 <= i < |init| ==> SectionNames(init)[i] == SectionNames(secs)[i];
      }
      assert SectionNames(secs)[|secs| - 1] == secs[|secs| - 1].name;
    }
  }

  /** Walked from an empty dict, a file with distinct section names gives a
      dict whose keys are the hospital sections in file order, and the count
      is their number. */
  lemma {:induction false} WalkFromEmpty(ini: Ini, secs: seq<Section>, w: Walked)
    requires DistinctNames(secs) && Walk(ini, secs, EmptyRegistry) == Ok(w)
    ensures w.reg.order == HospitalNames(ini, secs) && w.count == |w.reg.order|
    decreases |secs|
  {
    if secs != [] {
      var init, s := secs[..|secs| - 1], secs[|secs| - 1];
      WalkLast(ini, secs, EmptyRegistry, w);
      var before := Walk(ini, init, EmptyRegistry).value;
      WalkFromEmpty(ini, init, before);
      WalkStepShape(ini, before, s, w);
      if IsHospital(ini, s) {
        WalkValid(ini, init, EmptyRegistry, before);
        HospitalNamesFrom(ini, init);
        assert s.name !in SectionNames(init) by {
          forall i | 0 <= i < |init|
            ensures SectionNames(init)[i] != s.name
          {
            assert init[i] == secs[i];
          }
        }
        assert s.name !in before.reg.table;
      }
    }
  }

  // ---------------------------------------------------------------------
  // Lemmas: the whole call

  /** The call returns False exactly at the [OPTIONS] gate. */
  lemma RejectedAtGate(ini: Ini, reg0: Registry)
    requires reg0.Valid()
    ensures ReadConfig(ini, reg0) == Rejected <==> ReadOptions(ini).None?
  {
  }

  /** A hospital named in [OPTIONS] that the walk did not store raises
      KeyError at shot['hospital'] = hospital[my_hospital]. */
  lemma UnknownHospitalRaises(ini: Ini, reg0: Registry, o: Options, w: Walked)
    requires reg0.Valid() && ReadOptions(ini) == Some(o) && o.hospital.Some?
    requires Walk(ini, ini, reg0) == Ok(w) && o.hospital.value !in w.reg.table
    ensures ReadConfig(ini, reg0) == Failed(KeyError)
  {
  }

  /** A stored hospital named in [OPTIONS] becomes the active one and is
      marked as coming from the settings. */
  lemma NamedHospitalActive(ini: Ini, reg0: Registry, o: Options, w: Walked)
    requires reg0.Valid() && ReadOptions(ini) == Some(o) && o.hospital.Some?
    requires Walk(ini, ini, reg0) == Ok(w) && o.hospital.value in w.reg.table
    ensures ReadConfig(ini, reg0)
         == Loaded(w.reg, true, o.hospital,
                   Conf(Some(o.user), o.language, o.unique, o.hospital, Some(RecentFiles(ini))))
  {
  }

  /** With no hospital named, a read at start-up (empty dict) of a file with
      distinct section names makes the first hospital section of the file
      the active one; with no hospital section, shot['hospital'] is None and
      the hospital is not from the settings. */
  lemma DefaultHospitalIsFirst(ini: Ini, o: Options, w: Walked)
    requires DistinctNames(ini) && ReadOptions(ini) == Some(o) && o.hospital.None?
    requires Walk(ini, ini, EmptyRegistry) == Ok(w)
    ensures var names := HospitalNames(ini, ini);
            var active := if names == [] then None else Some(names[0]);
            ReadConfig(ini, EmptyRegistry)
              == Loaded(w.reg, names != [], active,
                        Conf(Some(o.user), o.language, o.unique, active, Some(RecentFiles(ini))))
  {
    WalkFromEmpty(ini, ini, w);
    WalkValid(ini, ini, EmptyRegistry, w);
  }
}
