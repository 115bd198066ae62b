/** The state shots.py keeps in its globals `shot` and `hospital`
    (shots.py:80-86) and the code that changes it: register_unique_room and
    the walk of read_config_from (shots.py:264-490), add_hospital_section
    (shots.py:1605-1626) and the start-up read (shots.py:2597-2613). Each
    method is tied to the functions of ConfigRead and HospitalModel that say
    what it computes. */
module Session {
  import opened Text
  import opened HospitalModel
  import opened ConfigRead

  /** What shot['hospital'] holds: no such key, None, the very dict stored
      in `hospital` under a key (an alias: changes through one are seen
      through the other), or a dict of its own. */
  datatype Active = Missing | NoneValue | Alias(hid: string) | Own(h: Hospital)

  /** shot['hospital'] as a read that ends normally leaves it. */
  function ActiveAfterRead(active: Option<string>): Active
  {
    if active.Some? then Alias(active.value) else NoneValue
  }

  /** How read_config_from ends: `return False`, falling off the end (None),
      or an exception. */
  datatype Outcome = ReturnedFalse | ReturnedNone | Raised(error: PyError)

  /** The truth value the caller tests; neither False nor None is true. */
  predicate Truthy(o: Outcome)
    requires !o.Raised?
  {
    match o
    case ReturnedFalse => false
    case ReturnedNone => false
  }

  class Shot {
    /** The global `hospital` dict. */
    var hospital: Registry
    /** shot['hospital']. */
    var active: Active
    /** shot['hospital_from_settings'], None while unset. */
    var fromSettings: Option<bool>
    /** shot['conf_user'] to shot['conf_recent'], None while unset. */
    var conf: Option<Conf>
    /** bool(shot['is_configured']), None while unset. */
    var isConfigured: Option<bool>

    /** `hospital` is a dict and an alias refers to a record in it. */
    ghost predicate Valid()
      reads this
    {
      hospital.Valid() && (active.Alias? ==> active.hid in hospital.table)
    }

    /** The record shot['hospital'] refers to, None when there is none. */
    ghost function Current(): Option<Hospital>
      reads this
      requires Valid()
    {
      match active
      case Alias(hid) => Some(hospital.table[hid])
      case Own(h) => Some(h)
      case _ => None
    }

    /** shot = {} and hospital = {} (shots.py:80, 86). */
    constructor()
      ensures Valid() && hospital == EmptyRegistry && active == Missing
      ensures fromSettings == None && conf == None && isConfigured == None
    {
      hospital := EmptyRegistry;
      active := Missing;
      fromSettings := None;
      conf := None;
      isConfigured := None;
    }

    // -------------------------------------------------------------------
    // register_unique_room (shots.py:374-389)

    method RegisterUniqueRoom(hid: string, elem: Element, name: string, room: string)
      requires Valid() && hid in hospital.table
      requires hospital.table[hid].Lists(elem).Some? && name in hospital.table[hid].Lists(elem).value
      requires IsDigits(room)
      modifies this
      ensures Valid()
      ensures hospital == old(hospital).Put(hid, RegisterRoom(old(hospital.table[hid]), hid, elem, name, room))
      ensures active == old(active) && fromSettings == old(fromSettings)
      ensures conf == old(conf) && isConfigured == old(isConfigured)
    {
      var h := hospital.table[hid];
      var lists := h.Lists(elem).value;
      h := h.WithLists(elem, lists[name := lists[name] + [IntId(DigitsValue(room))]]);
      var key := RoomKey(hid, name, room);
      ghost var listed := h;
      if key !in h.rooms {
        h := h.(rooms := h.rooms[key := Room(None, None, None)]);
      }
      h := h.(rooms := h.rooms[key := h.rooms[key].WithOwner(elem, name)]);
      assert h.rooms == listed.rooms[key := h.rooms[key]];
      PutKeepsValid(hospital, hid, h);
      hospital := hospital.Put(hid, h);
    }

    /** The pieces loop of shots.py:431-439 for the line `name = rooms`. */
    method RegisterPiecesFrom(hid: string, elem: Element, name: string, rooms: string)
      requires Valid() && hid in hospital.table
      requires hospital.table[hid].Lists(elem).Some? && name in hospital.table[hid].Lists(elem).value
      modifies this
      ensures Valid()
      ensures hospital == old(hospital).Put(hid, RegisterPieces(old(hospital.table[hid]), hid, elem, name, Split(rooms, ',')))
      ensures active == old(active) && fromSettings == old(fromSettings)
      ensures conf == old(conf) && isConfigured == old(isConfigured)
    {
      var pieces := Split(rooms, ',');
      ghost var h0 := hospital.table[hid];
      PutSame(hospital, hid);
      assert pieces[..0] == [];
      for i := 0 to |pieces|
        invariant Valid() && hid in hospital.table
        invariant hospital == old(hospital).Put(hid, RegisterPieces(h0, hid, elem, name, pieces[..i]))
        invariant active == old(active) && fromSettings == old(fromSettings)
        invariant conf == old(conf) && isConfigured == old(isConfigured)
      {
        var piece := pieces[i];
        ghost var before := RegisterPieces(h0, hid, elem, name, pieces[..i]);
        assert pieces[..i + 1][..i] == pieces[..i] && pieces[..i + 1][i] == piece;
        if IsDigits(piece) {
          RegisterUniqueRoom(hid, elem, name, piece);
          PutTwice(old(hospital), hid, before, RegisterRoom(before, hid, elem, name, piece));
        }
        // Any other piece is passed over; one with a hyphen raises TypeError
        // at int(list), which the except clause swallows.
      }
      assert pieces[..|pieces|] == pieces;
    }

    /** One `name = rooms` line (shots.py:431-439): the name's list is reset
        to [] and the pieces registered; a key without a value raises. */
    method LoadEntryInto(hid: string, elem: Element, entry: Entry) returns (err: Option<PyError>)
      requires Valid() && hid in hospital.table && hospital.table[hid].Lists(elem).Some?
      modifies this
      ensures Valid()
      ensures match LoadEntry(old(hospital.table[hid]), hid, elem, entry)
              case Ok(h) => err.None? && hospital == old(hospital).Put(hid, h)
              case Err(e) => err == Some(e)
      ensures active == old(active) && fromSettings == old(fromSettings)
      ensures conf == old(conf) && isConfigured == old(isConfigured)
    {
      var before := hospital.table[hid];
      var lists := before.Lists(elem).value;
      var cleared := before.WithLists(elem, lists[entry.key := []]);
      PutKeepsValid(hospital, hid, cleared);
      hospital := hospital.Put(hid, cleared);
      if entry.value.None? {
        return Some(AttributeError);
      }
      RegisterPiecesFrom(hid, elem, entry.key, entry.value.value);
      PutTwice(old(hospital), hid, cleared, hospital.table[hid]);
      err := None;
    }

    /** hospital[hid][elem] = {} and the lines of the linked section
        (shots.py:415-439). */
    method LoadElementInto(ini: Ini, hid: string, elem: Element, sectionName: string) returns (err: Option<PyError>)
      requires Valid() && hid in hospital.table
      modifies this
      ensures Valid()
      ensures match LoadElement(ini, old(hospital.table[hid]), hid, elem, sectionName)
              case Ok(h) => err.None? && hospital == old(hospital).Put(hid, h)
              case Err(e) => err == Some(e)
      ensures active == old(active) && fromSettings == old(fromSettings)
      ensures conf == old(conf) && isConfigured == old(isConfigured)
    {
      var start := hospital.table[hid].WithLists(elem, map[]);
      PutKeepsValid(hospital, hid, start);
      hospital := hospital.Put(hid, start);
      var found := FindSection(ini, sectionName);
      if found.None? {
        return Some(KeyError);
      }
      var entries := found.value.entries;
      assert entries[..0] == [];
      for i := 0 to |entries|
        invariant Valid() && hid in hospital.table
        invariant LoadEntries(start, hid, elem, entries[..i]) == Ok(hospital.table[hid])
        invariant hospital == old(hospital).Put(hid, hospital.table[hid])
        invariant active == old(active) && fromSettings == old(fromSettings)
        invariant conf == old(conf) && isConfigured == old(isConfigured)
      {
        ghost var before := hospital.table[hid];
        LoadEntriesPrefixStep(start, hid, elem, entries, i, before);
        err := LoadEntryInto(hid, elem, entries[i]);
        if err.Some? {
          LoadEntriesErrorEnds(start, hid, elem, entries, i + 1);
          return;
        }
        PutTwice(old(hospital), hid, before, hospital.table[hid]);
      }
      assert entries[..|entries|] == entries;
      err := None;
    }

    /** One hospital section (shots.py:399-439): hospital[hid] = {}, its
        info, then its buildings and its departments. A new dict replaces
        the old one under that key, so an alias of the old one stops being
        an alias and keeps the old record. */
    method LoadHospitalInto(ini: Ini, s: Section, links: Links) returns (err: Option<PyError>)
      requires Valid() && links.Links?
      modifies this
      ensures Valid()
      ensures match LoadHospital(ini, s, links)
              case Ok(h) => err.None? && hospital == old(hospital).Put(s.name, h)
              case Err(e) => err == Some(e)
      ensures active == if old(active) == Alias(s.name) then Own(old(hospital.table[s.name])) else old(active)
      ensures fromSettings == old(fromSettings) && conf == old(conf) && isConfigured == old(isConfigured)
    {
      if active == Alias(s.name) {
        active := Own(hospital.table[s.name]);
      }
      PutKeepsValid(hospital, s.name, EmptyHospital);
      hospital := hospital.Put(s.name, EmptyHospital);
      var info := LoadInfo(s);
      if info.Err? {
        return Some(info.error);
      }
      var withInfo := Hospital(Some(info.value), None, None, map[]);
      PutKeepsValid(hospital, s.name, withInfo);
      PutTwice(old(hospital), s.name, EmptyHospital, withInfo);
      hospital := hospital.Put(s.name, withInfo);
      ghost var afterInfo := hospital;
      err := LoadElementInto(ini, s.name, Bld, links.buildings);
      if err.Some? {
        return;
      }
      ghost var withBuildings := hospital.table[s.name];
      PutTwice(old(hospital), s.name, withInfo, withBuildings);
      err := LoadElementInto(ini, s.name, Dep, links.departments);
      if err.None? {
        PutTwice(old(hospital), s.name, withBuildings, hospital.table[s.name]);
      }
    }

    /** One section of config.sections() (shots.py:392-439): OPTIONS,
        RECENT and a section without departments are passed over, one
        without buildings raises, and a hospital section is loaded and
        counted. */
    method WalkSection(ini: Ini, s: Section, count: nat) returns (r: Result<nat>)
      requires Valid()
      modifies this
      ensures Valid()
      ensures match WalkStep(ini, Walked(old(hospital), count), s)
              case Ok(w) => r == Ok(w.count) && hospital == w.reg
              case Err(e) => r == Err(e)
      ensures active == old(active) || (old(active).Alias? && active == Own(old(hospital).table[old(active).hid]))
      ensures r.Ok? && old(active).Alias? && active == old(active) ==>
                hospital.table[active.hid] == old(hospital).table[active.hid]
      ensures fromSettings == old(fromSettings) && conf == old(conf) && isConfigured == old(isConfigured)
    {
      if s.name == "OPTIONS" || s.name == "RECENT" {
        return Ok(count);
      }
      var departments := Lookup(s.entries, "departments");
      if departments.None? {
        return Ok(count);
      }
      var buildings := Lookup(s.entries, "buildings");
      if buildings.None? {
        return Err(KeyError);
      }
      if buildings.value.Some? && buildings.value.value != [] && departments.value.Some?
         && departments.value.value in SectionNames(ini) {
        var err := LoadHospitalInto(ini, s, Links(buildings.value.value, departments.value.value));
        if err.Some? {
          return Err(err.value);
        }
        return Ok(count + 1);
      }
      r := Ok(count);
    }

    /** The loop over config.sections() (shots.py:392-439), returning
        number_of_hospitals_in_settings. */
    method WalkSections(ini: Ini) returns (r: Result<nat>)
      requires Valid()
      modifies this
      ensures Valid()
      ensures match Walk(ini, ini, old(hospital))
              case Ok(w) => r == Ok(w.count) && hospital == w.reg
              case Err(e) => r == Err(e)
      ensures active == old(active) || (old(active).Alias? && active == Own(old(hospital).table[old(active).hid]))
      ensures fromSettings == old(fromSettings) && conf == old(conf) && isConfigured == old(isConfigured)
    {
      var count := 0;
      assert ini[..0] == [];
      for i := 0 to |ini|
        invariant Valid()
        invariant Walk(ini, ini[..i], old(hospital)) == Ok(Walked(hospital, count))
        invariant active == old(active) || (old(active).Alias? && active == Own(old(hospital).table[old(active).hid]))
        invariant old(active).Alias? && active == old(active) ==>
                    hospital.table[active.hid] == old(hospital).table[active.hid]
        invariant fromSettings == old(fromSettings) && conf == old(conf) && isConfigured == old(isConfigured)
      {
        WalkPrefixStep(ini, ini, old(hospital), i, Walked(hospital, count));
        r := WalkSection(ini, ini[i], count);
        if r.Err? {
          WalkErrorEnds(ini, ini, old(hospital), i + 1);
          return;
        }
        count := r.value;
      }
      assert ini[..|ini|] == ini;
      r := Ok(count);
    }

    // -------------------------------------------------------------------
    // read_config_from (shots.py:264-490)

    /** The [RECENT] loop (shots.py:293-294). */
    method ReadRecent(ini: Ini) returns (files: seq<Option<string>>)
      ensures files == RecentFiles(ini)
    {
      files := [];
      var recent := FindSection(ini, "RECENT");
      if recent.Some? {
        var entries := recent.value.entries;
        for i := 0 to |entries|
          invariant files == seq(i, k requires 0 <= k < i => entries[k].value)
        {
          files := files + [entries[i].value];
        }
      }
    }

    /** The tail of read_config_from (shots.py:456-490) after the walk has
        counted `count` hospitals: picks the active hospital, aliases
        shot['hospital'] to it and sets the conf values. */
    method Conclude(opts: Options, count: nat, recent: seq<Option<string>>) returns (outcome: Outcome)
      requires Valid() && (count > 0 ==> hospital.order != [])
      modifies this
      ensures Valid() && hospital == old(hospital) && isConfigured == old(isConfigured)
      ensures match ConfigRead.Conclude(opts, Walked(old(hospital), count), recent)
              case Loaded(_, fs, act, c) =>
                outcome == ReturnedNone && active == ActiveAfterRead(act) && fromSettings == Some(fs) && conf == Some(c)
              case Failed(e) => outcome == Raised(e)
              case Rejected => false
    {
      var myHospital := opts.hospital;
      if myHospital.None? {
        if count > 0 {
          myHospital := Some(hospital.order[0]);
          fromSettings := Some(true);
        } else {
          fromSettings := Some(false);
        }
      } else {
        fromSettings := Some(true);
      }
      if fromSettings.value {
        if myHospital.value !in hospital.table {
          return Raised(KeyError);
        }
        active := Alias(myHospital.value);
      } else {
        active := NoneValue;
      }
      conf := Some(Conf(Some(opts.user), opts.language, opts.unique, myHospital, Some(recent)));
      outcome := ReturnedNone;
    }

    method ReadConfigFrom(ini: Ini) returns (outcome: Outcome)
      requires Valid()
      modifies this
      ensures Valid()
      ensures match ReadConfig(ini, old(hospital))
              case Rejected =>
                && outcome == ReturnedFalse && hospital == old(hospital) && active == old(active)
                && fromSettings == old(fromSettings) && conf == old(conf)
              case Loaded(reg, fs, act, c) =>
                && outcome == ReturnedNone && hospital == reg && active == ActiveAfterRead(act)
                && fromSettings == Some(fs) && conf == Some(c)
              case Failed(e) => outcome == Raised(e)
      ensures isConfigured == old(isConfigured)
    {
      var options := FindSection(ini, "OPTIONS");
      if options.None? {
        return ReturnedFalse;
      }
      var entries := options.value.entries;
      var user := GetOr(entries, "user", None);
      if user.None? {
        return ReturnedFalse;
      }
      var language := GetOr(entries, "language", Some("English"));
      if language.None? {
        return ReturnedFalse;
      }
      var opts := Options(user.value, language.value, GetOr(entries, "hospital", None),
                          GetOr(entries, "unique", Some("FNR")));
      assert ReadOptions(ini) == Some(opts);
      var recent := ReadRecent(ini);
      var walked := WalkSections(ini);
      if walked.Err? {
        return Raised(walked.error);
      }
      WalkValid(ini, ini, old(hospital), Walked(hospital, walked.value));
      outcome := Conclude(opts, walked.value, recent);
    }

    // -------------------------------------------------------------------
    // add_hospital_section (shots.py:1605-1626)

    /** Through shot['hospital']: into the aliased record of `hospital`, the
        dict of its own, or a fresh {} when it is absent or None. */
    method AddHospitalSection(elem: Element, name: string) returns (added: bool)
      requires Valid()
      modifies this
      ensures Valid()
      ensures var base := if old(Current()).Some? then old(Current()).value else EmptyHospital;
              Current() == Some(AddSection(base, elem, name).0) && added == AddSection(base, elem, name).1
      ensures old(active).Alias? ==>
                active == old(active) && hospital == old(hospital).Put(active.hid, Current().value)
      ensures !old(active).Alias? ==> active.Own? && hospital == old(hospital)
      ensures fromSettings == old(fromSettings) && conf == old(conf) && isConfigured == old(isConfigured)
    {
      var h: Hospital;
      if active.Alias? {
        h := hospital.table[active.hid];
      } else if active.Own? {
        h := active.h;
      } else {
        h := EmptyHospital;
      }
      if h.Lists(elem).None? {
        h := h.WithLists(elem, map[]);
      }
      var lists := h.Lists(elem).value;
      if name in lists {
        added := false;
      } else {
        h := h.WithLists(elem, lists[name := []]);
        added := true;
      }
      if active.Alias? {
        PutKeepsValid(hospital, active.hid, h);
        hospital := hospital.Put(active.hid, h);
      } else {
        active := Own(h);
      }
    }

    // -------------------------------------------------------------------
    // Start-up (shots.py:2597-2613)

    /** Reads settings.ini when it exists and resets the conf values when
        the result is not true, which it never is: a file read in full still
        leaves the session unconfigured, with the conf values reset while
        the hospitals read and shot['hospital'] stay. An exception out of the
        read ends the program. */
    method Startup(fileExists: bool, ini: Ini) returns (err: Option<PyError>)
      requires Valid()
      modifies this
      ensures Valid()
      ensures err.None? ==> isConfigured == Some(false) && conf == Some(DefaultConf)
      ensures !fileExists ==>
                err.None? && hospital == old(hospital) && active == old(active) && fromSettings == old(fromSettings)
      ensures fileExists ==>
                match ReadConfig(ini, old(hospital))
                case Rejected =>
                  err.None? && hospital == old(hospital) && active == old(active) && fromSettings == old(fromSettings)
                case Loaded(reg, fs, act, _) =>
                  err.None? && hospital == reg && active == ActiveAfterRead(act) && fromSettings == Some(fs)
                case Failed(e) => err == Some(e)
    {
      if fileExists {
        var outcome := ReadConfigFrom(ini);
        if outcome.Raised? {
          return Some(outcome.error);
        }
        isConfigured := Some(Truthy(outcome));
      } else {
        isConfigured := Some(false);
      }
      if !isConfigured.value {
        conf := Some(DefaultConf);
      }
      err := None;
    }
  }
}
