/**
 * The admin CRUD surface (`DatabaseManager` in main/data/db_manager.py). Each SQL
 * statement it issues is first given its meaning as a function on table contents;
 * the class then applies that function to the shared database. A plain INSERT that
 * meets a UNIQUE or PRIMARY KEY column fails with an IntegrityError and changes
 * nothing. INSERT OR IGNORE skips such a row instead, which leaves the table as it was
 * but, under AUTOINCREMENT, still uses up an id. Foreign keys are not enforced
 * (SQLite's default), so no insert checks a referenced row and no delete cascades.
 * The fresh device token and the check-in time are parameters.
 */
module DbManager {
  import opened Wrappers
  import opened Sql
  import opened Schema
  import Resolver

  // ---------------------------------------------------------------------------
  // residents
  // ---------------------------------------------------------------------------

  /** The row a check-in inserts: no checkout time yet, and `token_voided` at its DEFAULT 0. */
  function NewResident(id: int, name: string, roomNumber: string, token: string, now: string): Resident
  {
    Resident(id, name, roomNumber, token, Some(now), None, 0)
  }

  /**
   * `INSERT INTO residents (name, room_number, device_token, checkin_time)`: appends one
   * row under the next AUTOINCREMENT id, unless the token is already stored.
   */
  function InsertResident(rs: seq<Resident>, last: int, name: string, roomNumber: string, token: string, now: string)
    : (r: Result<(seq<Resident>, int), IntegrityError>)
    ensures r.Err? <==> TokenInUse(rs, token)
    ensures r.Err? ==> r.error == UniqueConstraintFailed("residents.device_token")
    ensures r.Ok? ==> |r.value.0| == |rs| + 1 && r.value.0[..|rs|] == rs && r.value.1 == last + 1
    ensures r.Ok? ==> r.value.0[|rs|] == NewResident(last + 1, name, roomNumber, token, now)
  {
    if TokenInUse(rs, token) then Err(UniqueConstraintFailed("residents.device_token"))
    else Ok((rs + [NewResident(last + 1, name, roomNumber, token, now)], last + 1))
  }

  /** A successful check-in keeps both keys of `residents` and the sequence bound. */
  lemma InsertResidentKeepsKeys(rs: seq<Resident>, last: int, name: string, roomNumber: string, token: string, now: string)
    requires ResidentKeysValid(rs, last)
    ensures var r := InsertResident(rs, last, name, roomNumber, token, now);
            r.Ok? ==> ResidentKeysValid(r.value.0, r.value.1)
  {
    var r := InsertResident(rs, last, name, roomNumber, token, now);
    if r.Ok? {
      var rs' := r.value.0;
      forall i, j | 0 <= i < j < |rs'| ensures rs'[i].deviceToken != rs'[j].deviceToken {
        if j == |rs| { assert rs'[i] == rs[i]; }
      }
    }
  }

  /** The token a check-in stores authenticates at once, as the new resident. */
  lemma InsertedResidentAuthenticates(rs: seq<Resident>, last: int, name: string, roomNumber: string, token: string, now: string)
    requires ResidentKeysValid(rs, last)
    requires !TokenInUse(rs, token)
    ensures var r := InsertResident(rs, last, name, roomNumber, token, now);
            && r.Ok?
            && Resolver.GetResidentFromToken(r.value.0, token)
               == Some(Resolver.RecordOf(NewResident(last + 1, name, roomNumber, token, now)))
  {
    var r := InsertResident(rs, last, name, roomNumber, token, now);
    InsertResidentKeepsKeys(rs, last, name, roomNumber, token, now);
    Resolver.ActiveResidentAuthenticates(r.value.0, r.value.1, |rs|);
  }

  /** `DELETE FROM residents WHERE resident_id=?` */
  function DeleteResident(rs: seq<Resident>, id: int): (r: seq<Resident>)
    ensures forall x :: x in r <==> x in rs && x.id != id
    ensures (forall i :: 0 <= i < |rs| ==> rs[i].id != id) ==> r == rs
  {
    Filter(rs, (x: Resident) => x.id != id)
  }

  /** Deleting an existing resident id removes that one row; the others stay, in order, with their keys. */
  lemma DeleteResidentRemovesOne(rs: seq<Resident>, last: int, k: int)
    requires ResidentKeysValid(rs, last)
    requires 0 <= k < |rs|
    ensures DeleteResident(rs, rs[k].id) == rs[..k] + rs[k + 1..]
    ensures ResidentKeysValid(DeleteResident(rs, rs[k].id), last)
  {
    var id := rs[k].id;
    FilterDropsOne(rs, (x: Resident) => x.id != id, k);
    FilterKeepsKeyDistinct(rs, (x: Resident) => x.id != id, (x: Resident) => x.id);
    FilterKeepsKeyDistinct(rs, (x: Resident) => x.id != id, (x: Resident) => x.deviceToken);
    var r := DeleteResident(rs, id);
    forall i | 0 <= i < |r| ensures r[i].id <= last {
      assert r[i] in rs;
    }
  }

  // ---------------------------------------------------------------------------
  // buildings
  // ---------------------------------------------------------------------------

  /**
   * `INSERT OR IGNORE INTO buildings (name, wifi_ssid, wifi_password, restaurant_name)`:
   * appends a row under the next id unless the UNIQUE name is taken. AUTOINCREMENT hands
   * out the next id before the conflict is found, so a skipped row still uses it up:
   * the table stays as it is but its sequence advances by one.
   */
  function InsertOrIgnoreBuilding(bs: seq<Building>, last: int, name: string,
                                  wifiSsid: Option<string>, wifiPassword: Option<string>, restaurant: Option<string>)
    : (r: (seq<Building>, int))
    ensures BuildingNameInUse(bs, name) ==> r == (bs, last + 1)
    ensures !BuildingNameInUse(bs, name) ==>
              r == (bs + [Building(last + 1, name, wifiSsid, wifiPassword, restaurant)], last + 1)
  {
    if BuildingNameInUse(bs, name) then (bs, last + 1)
    else (bs + [Building(last + 1, name, wifiSsid, wifiPassword, restaurant)], last + 1)
  }

  /** After the statement the name is present, the old rows are a prefix, and both keys of `buildings` still hold. */
  lemma InsertOrIgnoreBuildingKeepsKeys(bs: seq<Building>, last: int, name: string,
                                        wifiSsid: Option<string>, wifiPassword: Option<string>, restaurant: Option<string>)
    ensures var (bs', last') := InsertOrIgnoreBuilding(bs, last, name, wifiSsid, wifiPassword, restaurant);
            && (BuildingKeysValid(bs, last) ==> BuildingKeysValid(bs', last'))
            && BuildingNameInUse(bs', name)
            && bs'[..|bs|] == bs
            && last <= last'
  {
    var (bs', last') := InsertOrIgnoreBuilding(bs, last, name, wifiSsid, wifiPassword, restaurant);
    if !BuildingNameInUse(bs, name) {
      assert bs'[|bs|].name == name;
    }
    if !BuildingNameInUse(bs, name) && BuildingKeysValid(bs, last) {
      forall i, j | 0 <= i < j < |bs'| ensures bs'[i].name != bs'[j].name && bs'[i].id != bs'[j].id {
        if j == |bs| { assert bs'[i] == bs[i]; }
      }
    }
  }

  /**
   * `add_building` run twice leaves the same rows as run once; the second run only
   * uses up one more id.
   */
  lemma AddBuildingIdempotent(bs: seq<Building>, last: int, name: string)
    ensures var (bs1, last1) := InsertOrIgnoreBuilding(bs, last, name, None, None, None);
            InsertOrIgnoreBuilding(bs1, last1, name, None, None, None) == (bs1, last1 + 1)
  {
    var (bs1, last1) := InsertOrIgnoreBuilding(bs, last, name, None, None, None);
    if !BuildingNameInUse(bs, name) {
      assert bs1[|bs|].name == name;
    }
  }

  /** `DELETE FROM buildings WHERE building_id=?` */
  function DeleteBuilding(bs: seq<Building>, id: int): (r: seq<Building>)
    ensures forall x :: x in r <==> x in bs && x.id != id
    ensures (forall i :: 0 <= i < |bs| ==> bs[i].id != id) ==> r == bs
  {
    Filter(bs, (x: Building) => x.id != id)
  }

  lemma DeleteBuildingRemovesOne(bs: seq<Building>, last: int, k: int)
    requires BuildingKeysValid(bs, last)
    requires 0 <= k < |bs|
    ensures DeleteBuilding(bs, bs[k].id) == bs[..k] + bs[k + 1..]
    ensures BuildingKeysValid(DeleteBuilding(bs, bs[k].id), last)
  {
    var id := bs[k].id;
    FilterDropsOne(bs, (x: Building) => x.id != id, k);
    FilterKeepsKeyDistinct(bs, (x: Building) => x.id != id, (x: Building) => x.id);
    FilterKeepsKeyDistinct(bs, (x: Building) => x.id != id, (x: Building) => x.name);
    var r := DeleteBuilding(bs, id);
    forall i | 0 <= i < |r| ensures r[i].id <= last {
      assert r[i] in bs;
    }
  }

  /** The `(building_id, name)` tuple that `list_buildings` fetches for a row. */
  function IdAndName(b: Building): (int, string)
  {
    (b.id, b.name)
  }

  /**
   * The order of the index SQLite builds for `name TEXT UNIQUE`: by name under BINARY
   * collation (the index entry's rowid only breaks ties, and UNIQUE leaves none).
   */
  function NameKey(r: (int, string)): (string, string)
  {
    (r.1, "")
  }

  /**
   * Names are UNIQUE, so ordering the `(id, name)` tuples by name leaves exactly one
   * listing of the table: any two name-ordered listings of the same rows are equal.
   */
  lemma NameOrderedListingUnique(bs: seq<Building>, last: int, a: seq<(int, string)>, b: seq<(int, string)>)
    requires BuildingKeysValid(bs, last)
    requires SortedBy(a, NameKey) && multiset(a) == multiset(Project(bs, IdAndName))
    requires SortedBy(b, NameKey) && multiset(b) == multiset(Project(bs, IdAndName))
    ensures a == b
  {
    var all := Project(bs, IdAndName);
    forall x, y | x in a && y in a && NameKey(x) == NameKey(y) ensures x == y {
      assert x in multiset(all) && y in multiset(all);
      var i :| 0 <= i < |all| && all[i] == x;
      var j :| 0 <= j < |all| && all[j] == y;
      assert bs[i].name == bs[j].name;
      assert i == j;
    }
    SortedPermutationUnique(a, b, NameKey);
  }

  /**
   * Name order is not id order: when a building is added after one whose name sorts
   * later (say "Alpha" after "Zeta"), the listing puts the newer building first.
   */
  lemma LaterSmallerNameListedFirst(b1: Building, b2: Building, last: int)
    requires BuildingKeysValid([b1, b2], last)
    requires StrLe(b2.name, b1.name)
    ensures SortBy(Project([b1, b2], IdAndName), NameKey) == [IdAndName(b2), IdAndName(b1)]
  {
    var all := Project([b1, b2], IdAndName);
    var listed := [IdAndName(b2), IdAndName(b1)];
    assert all == [IdAndName(b1), IdAndName(b2)];
    assert SortedBy(listed, NameKey) by {
      assert KeyLe(NameKey(listed[0]), NameKey(listed[1]));
    }
    assert multiset(listed) == multiset(all);
    NameOrderedListingUnique([b1, b2], last, SortBy(all, NameKey), listed);
  }

  /**
   * No cascade: the rooms of a deleted building stay in `rooms`, but no longer join to a
   * building, so the resolver now reports each of them as not found.
   */
  lemma DeletedBuildingOrphansItsRooms(t: Tables, id: int, i: int, today: string)
    requires RoomNumbersUnique(t.rooms)
    requires 0 <= i < |t.rooms| && t.rooms[i].buildingId == Some(id)
    ensures var t' := t.(buildings := DeleteBuilding(t.buildings, id));
            && t'.rooms[i] == t.rooms[i]
            && Resolver.GetFullContext(t', t.rooms[i].roomNumber, today).RoomNotFound?
  {
    var t' := t.(buildings := DeleteBuilding(t.buildings, id));
    var n := t.rooms[i].roomNumber;
    forall i', j | 0 <= i' < |t'.rooms| && 0 <= j < |t'.buildings| ensures !Resolver.JoinsOn(t'.rooms[i'], t'.buildings[j], n) {
      assert t'.buildings[j] in t'.buildings;
      if t'.rooms[i'].roomNumber == n {
        assert i' == i;
      }
    }
  }

  // ---------------------------------------------------------------------------
  // wings
  // ---------------------------------------------------------------------------

  /** `INSERT INTO wings (building_id, name, wifi_ssid, wifi_password)` under the next id. */
  function InsertWing(ws: seq<Wing>, last: int, buildingId: int, name: string, wifiSsid: string, wifiPassword: string)
    : (r: (seq<Wing>, int))
    ensures |r.0| == |ws| + 1 && r.0[..|ws|] == ws && r.1 == last + 1
    ensures r.0[|ws|] == Wing(last + 1, buildingId, name, wifiSsid, wifiPassword)
  {
    (ws + [Wing(last + 1, buildingId, name, wifiSsid, wifiPassword)], last + 1)
  }

  /** The id a new wing gets was not in use, so the key and the sequence bound still hold. */
  lemma InsertWingFreshId(ws: seq<Wing>, last: int, buildingId: int, name: string, wifiSsid: string, wifiPassword: string)
    requires WingKeysValid(ws, last)
    ensures forall i :: 0 <= i < |ws| ==> ws[i].id != last + 1
    ensures var (ws', last') := InsertWing(ws, last, buildingId, name, wifiSsid, wifiPassword);
            WingKeysValid(ws', last')
  {
    var (ws', last') := InsertWing(ws, last, buildingId, name, wifiSsid, wifiPassword);
    forall i, j | 0 <= i < j < |ws'| ensures ws'[i].id != ws'[j].id {
      if j == |ws| { assert ws'[i] == ws[i]; }
    }
  }

  /** `DELETE FROM wings WHERE wing_id=?` */
  function DeleteWing(ws: seq<Wing>, id: int): (r: seq<Wing>)
    ensures forall x :: x in r <==> x in ws && x.id != id
    ensures (forall i :: 0 <= i < |ws| ==> ws[i].id != id) ==> r == ws
  {
    Filter(ws, (x: Wing) => x.id != id)
  }

  lemma DeleteWingRemovesOne(ws: seq<Wing>, last: int, k: int)
    requires WingKeysValid(ws, last)
    requires 0 <= k < |ws|
    ensures DeleteWing(ws, ws[k].id) == ws[..k] + ws[k + 1..]
    ensures WingKeysValid(DeleteWing(ws, ws[k].id), last)
  {
    var id := ws[k].id;
    FilterDropsOne(ws, (x: Wing) => x.id != id, k);
    FilterKeepsKeyDistinct(ws, (x: Wing) => x.id != id, (x: Wing) => x.id);
    var r := DeleteWing(ws, id);
    forall i | 0 <= i < |r| ensures r[i].id <= last {
      assert r[i] in ws;
    }
  }

  // ---------------------------------------------------------------------------
  // rooms
  // ---------------------------------------------------------------------------

  /** The row `add_room` inserts: `floor` and `room_type` are not among its columns, so they are NULL. */
  function NewRoom(roomNumber: string, buildingId: int, wingId: int, tvBrand: string, fanType: string, thermostatModel: string): Room
  {
    Room(roomNumber, Some(buildingId), Some(wingId), None, None, tvBrand, fanType, thermostatModel)
  }

  /** `INSERT INTO rooms (...)`: a plain insert on the primary key `room_number`. */
  function InsertRoom(rooms: seq<Room>, row: Room): (r: Result<seq<Room>, IntegrityError>)
    ensures r.Err? <==> RoomNumberInUse(rooms, row.roomNumber)
    ensures r.Err? ==> r.error == UniqueConstraintFailed("rooms.room_number")
    ensures r.Ok? ==> r.value == rooms + [row]
    ensures RoomNumbersUnique(rooms) && r.Ok? ==> RoomNumbersUnique(r.value)
  {
    if RoomNumberInUse(rooms, row.roomNumber) then Err(UniqueConstraintFailed("rooms.room_number"))
    else Ok(rooms + [row])
  }

  /** `DELETE FROM rooms WHERE room_number=?` */
  function DeleteRoom(rooms: seq<Room>, roomNumber: string): (r: seq<Room>)
    ensures forall x :: x in r <==> x in rooms && x.roomNumber != roomNumber
    ensures !RoomNumberInUse(rooms, roomNumber) ==> r == rooms
  {
    Filter(rooms, (x: Room) => x.roomNumber != roomNumber)
  }

  lemma DeleteRoomRemovesOne(rooms: seq<Room>, k: int)
    requires RoomNumbersUnique(rooms)
    requires 0 <= k < |rooms|
    ensures DeleteRoom(rooms, rooms[k].roomNumber) == rooms[..k] + rooms[k + 1..]
    ensures RoomNumbersUnique(DeleteRoom(rooms, rooms[k].roomNumber))
  {
    var n := rooms[k].roomNumber;
    FilterDropsOne(rooms, (x: Room) => x.roomNumber != n, k);
    FilterKeepsKeyDistinct(rooms, (x: Room) => x.roomNumber != n, (x: Room) => x.roomNumber);
  }

  // ---------------------------------------------------------------------------
  // amenities
  // ---------------------------------------------------------------------------

  /** `INSERT INTO amenities (building_id, name, description, floor)` under the next id. */
  function InsertAmenity(am: seq<Amenity>, last: int, buildingId: int, name: string, description: string, floor: int)
    : (r: (seq<Amenity>, int))
    ensures |r.0| == |am| + 1 && r.0[..|am|] == am && r.1 == last + 1
    ensures r.0[|am|] == Amenity(last + 1, buildingId, name, description, floor)
  {
    (am + [Amenity(last + 1, buildingId, name, description, floor)], last + 1)
  }

  lemma InsertAmenityFreshId(am: seq<Amenity>, last: int, buildingId: int, name: string, description: string, floor: int)
    requires AmenityKeysValid(am, last)
    ensures forall i :: 0 <= i < |am| ==> am[i].id != last + 1
    ensures var (am', last') := InsertAmenity(am, last, buildingId, name, description, floor);
            AmenityKeysValid(am', last')
  {
    var (am', last') := InsertAmenity(am, last, buildingId, name, description, floor);
    forall i, j | 0 <= i < j < |am'| ensures am'[i].id != am'[j].id {
      if j == |am| { assert am'[i] == am[i]; }
    }
  }

  /** `DELETE FROM amenities WHERE amenity_id=?` */
  function DeleteAmenity(am: seq<Amenity>, id: int): (r: seq<Amenity>)
    ensures forall x :: x in r <==> x in am && x.id != id
    ensures (forall i :: 0 <= i < |am| ==> am[i].id != id) ==> r == am
  {
    Filter(am, (x: Amenity) => x.id != id)
  }

  lemma DeleteAmenityRemovesOne(am: seq<Amenity>, last: int, k: int)
    requires AmenityKeysValid(am, last)
    requires 0 <= k < |am|
    ensures DeleteAmenity(am, am[k].id) == am[..k] + am[k + 1..]
    ensures AmenityKeysValid(DeleteAmenity(am, am[k].id), last)
  {
    var id := am[k].id;
    FilterDropsOne(am, (x: Amenity) => x.id != id, k);
    FilterKeepsKeyDistinct(am, (x: Amenity) => x.id != id, (x: Amenity) => x.id);
    var r := DeleteAmenity(am, id);
    forall i | 0 <= i < |r| ensures r[i].id <= last {
      assert r[i] in am;
    }
  }

  // ---------------------------------------------------------------------------
  // The admin object
  // ---------------------------------------------------------------------------

  /** The admin tool: every method runs one statement against `db` and commits it. */
  class DatabaseManager {
    const db: Database

    constructor (db: Database)
      ensures this.db == db
    {
      this.db := db;
    }

    method AddResident(name: string, roomNumber: string, token: string, now: string)
      returns (r: Result<(), IntegrityError>)
      requires db.Valid()
      modifies db
      ensures db.Valid()
      ensures r.Err? <==> TokenInUse(old(db.residents), token)
      ensures match InsertResident(old(db.residents), old(db.residentSeq), name, roomNumber, token, now)
              case Ok((rs, last)) => db.Snapshot() == old(db.Snapshot()).(residents := rs, residentSeq := last)
              case Err(_) => db.Snapshot() == old(db.Snapshot())
    {
      InsertResidentKeepsKeys(db.residents, db.residentSeq, name, roomNumber, token, now);
      match InsertResident(db.residents, db.residentSeq, name, roomNumber, token, now)
      case Ok((rs, last)) =>
        db.residents, db.residentSeq := rs, last;
        r := Ok(());
      case Err(e) =>
        r := Err(e);
    }

    method DeleteResidentById(residentId: int)
      requires db.Valid()
      modifies db
      ensures db.Valid()
      ensures db.Snapshot() == old(db.Snapshot()).(residents := DeleteResident(old(db.residents), residentId))
    {
      if k :| 0 <= k < |db.residents| && db.residents[k].id == residentId {
        DeleteResidentRemovesOne(db.residents, db.residentSeq, k);
      }
      db.residents := DeleteResident(db.residents, residentId);
    }

    /** `SELECT resident_id, name, room_number, device_token FROM residents` */
    function ListResidents(): (rows: seq<(int, string, string, string)>)
      reads db
      ensures |rows| == |db.residents|
      ensures forall i :: 0 <= i < |rows| ==>
                rows[i] == (db.residents[i].id, db.residents[i].name, db.residents[i].roomNumber, db.residents[i].deviceToken)
    {
      Project(db.residents, (x: Resident) => (x.id, x.name, x.roomNumber, x.deviceToken))
    }

    method AddBuilding(name: string)
      requires db.Valid()
      modifies db
      ensures db.Valid()
      ensures var (bs, last) := InsertOrIgnoreBuilding(old(db.buildings), old(db.buildingSeq), name, None, None, None);
              db.Snapshot() == old(db.Snapshot()).(buildings := bs, buildingSeq := last)
    {
      InsertOrIgnoreBuildingKeepsKeys(db.buildings, db.buildingSeq, name, None, None, None);
      var (bs, last) := InsertOrIgnoreBuilding(db.buildings, db.buildingSeq, name, None, None, None);
      db.buildings, db.buildingSeq := bs, last;
    }

    /**
     * `SELECT building_id, name FROM buildings`. The UNIQUE index on `name` stores each
     * name with its rowid, which is `building_id`, so it holds both selected columns.
     * SQLite scans that narrower index instead of the table, and the rows come back in
     * name order.
     */
    function ListBuildings(): (rows: seq<(int, string)>)
      reads db
      ensures SortedBy(rows, NameKey)
      ensures multiset(rows) == multiset(Project(db.buildings, IdAndName))
    {
      SortBy(Project(db.buildings, IdAndName), NameKey)
    }

    /** Only `buildings` changes: rooms, wings and amenities that reference the building remain. */
    method DeleteBuildingById(buildingId: int)
      requires db.Valid()
      modifies db
      ensures db.Valid()
      ensures db.Snapshot() == old(db.Snapshot()).(buildings := DeleteBuilding(old(db.buildings), buildingId))
    {
      if k :| 0 <= k < |db.buildings| && db.buildings[k].id == buildingId {
        DeleteBuildingRemovesOne(db.buildings, db.buildingSeq, k);
      }
      db.buildings := DeleteBuilding(db.buildings, buildingId);
    }

    method AddWing(buildingId: int, name: string, wifiSsid: string, wifiPassword: string)
      requires db.Valid()
      modifies db
      ensures db.Valid()
      ensures var (ws, last) := InsertWing(old(db.wings), old(db.wingSeq), buildingId, name, wifiSsid, wifiPassword);
              db.Snapshot() == old(db.Snapshot()).(wings := ws, wingSeq := last)
    {
      InsertWingFreshId(db.wings, db.wingSeq, buildingId, name, wifiSsid, wifiPassword);
      var (ws, last) := InsertWing(db.wings, db.wingSeq, buildingId, name, wifiSsid, wifiPassword);
      db.wings, db.wingSeq := ws, last;
    }

    /** `SELECT wing_id, building_id, name, wifi_ssid FROM wings` */
    function ListWings(): (rows: seq<(int, int, string, string)>)
      reads db
      ensures |rows| == |db.wings|
      ensures forall i :: 0 <= i < |rows| ==>
                rows[i] == (db.wings[i].id, db.wings[i].buildingId, db.wings[i].name, db.wings[i].wifiSsid)
    {
      Project(db.wings, (x: Wing) => (x.id, x.buildingId, x.name, x.wifiSsid))
    }

    method DeleteWingById(wingId: int)
      requires db.Valid()
      modifies db
      ensures db.Valid()
      ensures db.Snapshot() == old(db.Snapshot()).(wings := DeleteWing(old(db.wings), wingId))
    {
      if k :| 0 <= k < |db.wings| && db.wings[k].id == wingId {
        DeleteWingRemovesOne(db.wings, db.wingSeq, k);
      }
      db.wings := DeleteWing(db.wings, wingId);
    }

    method AddRoom(roomNumber: string, buildingId: int, wingId: int, tvBrand: string, fanType: string, thermostatModel: string)
      returns (r: Result<(), IntegrityError>)
      requires db.Valid()
      modifies db
      ensures db.Valid()
      ensures r.Err? <==> RoomNumberInUse(old(db.rooms), roomNumber)
      ensures match InsertRoom(old(db.rooms), NewRoom(roomNumber, buildingId, wingId, tvBrand, fanType, thermostatModel))
              case Ok(rooms) => db.Snapshot() == old(db.Snapshot()).(rooms := rooms)
              case Err(_) => db.Snapshot() == old(db.Snapshot())
    {
      match InsertRoom(db.rooms, NewRoom(roomNumber, buildingId, wingId, tvBrand, fanType, thermostatModel))
      case Ok(rooms) =>
        db.rooms := rooms;
        r := Ok(());
      case Err(e) =>
        r := Err(e);
    }

    /** `SELECT room_number, building_id, wing_id FROM rooms` */
    function ListRooms(): (rows: seq<(string, Option<int>, Option<int>)>)
      reads db
      ensures |rows| == |db.rooms|
      ensures forall i :: 0 <= i < |rows| ==> rows[i] == (db.rooms[i].roomNumber, db.rooms[i].buildingId, db.rooms[i].wingId)
    {
      Project(db.rooms, (x: Room) => (x.roomNumber, x.buildingId, x.wingId))
    }

    method DeleteRoomByNumber(roomNumber: string)
      requires db.Valid()
      modifies db
      ensures db.Valid()
      ensures db.Snapshot() == old(db.Snapshot()).(rooms := DeleteRoom(old(db.rooms), roomNumber))
    {
      if k :| 0 <= k < |db.rooms| && db.rooms[k].roomNumber == roomNumber {
        DeleteRoomRemovesOne(db.rooms, k);
      }
      db.rooms := DeleteRoom(db.rooms, roomNumber);
    }

    method AddAmenity(buildingId: int, name: string, description: string, floor: int)
      requires db.Valid()
      modifies db
      ensures db.Valid()
      ensures var (am, last) := InsertAmenity(old(db.amenities), old(db.amenitySeq), buildingId, name, description, floor);
              db.Snapshot() == old(db.Snapshot()).(amenities := am, amenitySeq := last)
    {
      InsertAmenityFreshId(db.amenities, db.amenitySeq, buildingId, name, description, floor);
      var (am, last) := InsertAmenity(db.amenities, db.amenitySeq, buildingId, name, description, floor);
      db.amenities, db.amenitySeq := am, last;
    }

    /** `SELECT amenity_id, building_id, name, floor FROM amenities` */
    function ListAmenities(): (rows: seq<(int, int, string, int)>)
      reads db
      ensures |rows| == |db.amenities|
      ensures forall i :: 0 <= i < |rows| ==>
                rows[i] == (db.amenities[i].id, db.amenities[i].buildingId, db.amenities[i].name, db.amenities[i].floor)
    {
      Project(db.amenities, (x: Amenity) => (x.id, x.buildingId, x.name, x.floor))
    }

    method DeleteAmenityById(amenityId: int)
      requires db.Valid()
      modifies db
      ensures db.Valid()
      ensures db.Snapshot() == old(db.Snapshot()).(amenities := DeleteAmenity(old(db.amenities), amenityId))
    {
      if k :| 0 <= k < |db.amenities| && db.amenities[k].id == amenityId {
        DeleteAmenityRemovesOne(db.amenities, db.amenitySeq, k);
      }
      db.amenities := DeleteAmenity(db.amenities, amenityId);
    }
  }
}
