/**
 * The context resolver of the chat assistant (`DatabaseLoader` in hotel_db.py): token
 * authentication and the read-only room snapshot. Both are pure functions of the
 * table contents, so neither can change a table. The current weekday name is a
 * parameter (the source reads the clock).
 */
module Resolver {
  import opened Wrappers
  import opened Sql
  import opened Schema

  // ---------------------------------------------------------------------------
  // Token -> resident
  // ---------------------------------------------------------------------------

  /** The dictionary `get_resident_from_token` returns; `tokenVoided` is `bool(token_voided)`. */
  datatype ResidentRecord = ResidentRecord(
    residentId: int,
    name: string,
    roomNumber: string,
    deviceToken: string,
    checkinTime: Option<string>,
    checkoutTime: Option<string>,
    tokenVoided: bool)

  function RecordOf(r: Resident): ResidentRecord
  {
    ResidentRecord(r.id, r.name, r.roomNumber, r.deviceToken, r.checkinTime, r.checkoutTime, r.tokenVoided != 0)
  }

  /** `WHERE device_token = ? AND token_voided = 0` */
  predicate HoldsActiveToken(r: Resident, token: string)
  {
    r.deviceToken == token && r.tokenVoided == 0
  }

  /** The active resident holding `token`, or None; an unknown or voided token is never an error. */
  function GetResidentFromToken(residents: seq<Resident>, token: string): (r: Option<ResidentRecord>)
    ensures r.Some? <==> exists i :: 0 <= i < |residents| && HoldsActiveToken(residents[i], token)
    ensures r.Some? ==> exists i :: 0 <= i < |residents| && HoldsActiveToken(residents[i], token)
                                    && r.value == RecordOf(residents[i])
    ensures r.Some? ==> r.value.deviceToken == token && !r.value.tokenVoided
  {
    match First(residents, (x: Resident) => HoldsActiveToken(x, token))
    case None => None
    case Some(row) => Some(RecordOf(row))
  }

  /** Under the UNIQUE token constraint, an active resident authenticates as exactly itself. */
  lemma ActiveResidentAuthenticates(rs: seq<Resident>, last: int, k: int)
    requires ResidentKeysValid(rs, last)
    requires 0 <= k < |rs| && rs[k].tokenVoided == 0
    ensures GetResidentFromToken(rs, rs[k].deviceToken) == Some(RecordOf(rs[k]))
  {
    FirstOfUnique(rs, (x: Resident) => HoldsActiveToken(x, rs[k].deviceToken), k);
  }

  // ---------------------------------------------------------------------------
  // Room -> context
  // ---------------------------------------------------------------------------

  /** The `resident` entry of the context when an active resident occupies the room. */
  datatype ContextResident = ContextResident(
    residentId: int,
    residentName: string,
    residentRoom: string,
    residentDeviceToken: string,
    residentCheckinTime: Option<string>)

  datatype RoomInfo = RoomInfo(
    roomNumber: string,
    tvBrand: string,
    fanType: string,
    thermostatModel: string,
    floor: Option<int>,
    roomType: Option<string>)

  datatype BuildingInfo = BuildingInfo(
    id: int,
    name: string,
    wifiSsid: Option<string>,
    wifiPassword: Option<string>,
    restaurantName: Option<string>)

  datatype AmenityInfo = AmenityInfo(name: string, description: string, floor: int)
  datatype WaterSportInfo = WaterSportInfo(name: string, description: string)
  datatype PoolInfo = PoolInfo(name: string, features: string)
  datatype MenuItem = MenuItem(day: string, meal: string, itemName: string)

  /** What `get_full_context` returns: the `{"error": ...}` dictionary, or the full snapshot. */
  datatype Context =
    | RoomNotFound(error: string)
    | RoomContext(
        resident: Option<ContextResident>,
        room: RoomInfo,
        building: BuildingInfo,
        amenities: seq<AmenityInfo>,
        waterSports: seq<WaterSportInfo>,
        pools: seq<PoolInfo>,
        restaurantMenu: seq<MenuItem>)

  function ContextResidentOf(r: Resident): ContextResident
  {
    ContextResident(r.id, r.name, r.roomNumber, r.deviceToken, r.checkinTime)
  }

  function RoomInfoOf(r: Room): RoomInfo
  {
    RoomInfo(r.roomNumber, r.tvBrand, r.fanType, r.thermostatModel, r.floor, r.roomType)
  }

  function BuildingInfoOf(b: Building): BuildingInfo
  {
    BuildingInfo(b.id, b.name, b.wifiSsid, b.wifiPassword, b.restaurantName)
  }

  function AmenityInfoOf(a: Amenity): AmenityInfo { AmenityInfo(a.name, a.description, a.floor) }
  function WaterSportInfoOf(w: WaterSport): WaterSportInfo { WaterSportInfo(w.name, w.description) }
  function PoolInfoOf(p: Pool): PoolInfo { PoolInfo(p.name, p.features) }
  function MenuItemOf(m: MenuEntry): MenuItem { MenuItem(m.day, m.meal, m.itemName) }

  /** `WHERE room_number = ? AND token_voided = 0` */
  predicate ActiveIn(r: Resident, roomNumber: string)
  {
    r.roomNumber == roomNumber && r.tokenVoided == 0
  }

  /** The first active resident of the room, in table order, or None for a vacant room. */
  function ActiveResidentOfRoom(rs: seq<Resident>, roomNumber: string): (r: Option<ContextResident>)
    ensures r.None? <==> forall i :: 0 <= i < |rs| ==> !ActiveIn(rs[i], roomNumber)
    ensures r.Some? ==> exists i :: 0 <= i < |rs| && ActiveIn(rs[i], roomNumber)
                                    && r.value == ContextResidentOf(rs[i])
                                    && forall j :: 0 <= j < i ==> !ActiveIn(rs[j], roomNumber)
  {
    match First(rs, (x: Resident) => ActiveIn(x, roomNumber))
    case None => None
    case Some(row) => Some(ContextResidentOf(row))
  }

  /** `rooms r JOIN buildings b ON r.building_id = b.building_id WHERE r.room_number = ?` */
  predicate JoinsOn(r: Room, b: Building, roomNumber: string)
  {
    r.roomNumber == roomNumber && r.buildingId == Some(b.id)
  }

  /** The buildings the join pairs with one room, in table order. */
  function JoinedBuildings(r: Room, buildings: seq<Building>, roomNumber: string): (out: seq<(Room, Building)>)
    ensures forall rb :: rb in out <==> rb.0 == r && rb.1 in buildings && JoinsOn(r, rb.1, roomNumber)
  {
    if buildings == [] then []
    else
      assert buildings == [buildings[0]] + buildings[1..];
      (if JoinsOn(r, buildings[0], roomNumber) then [(r, buildings[0])] else [])
      + JoinedBuildings(r, buildings[1..], roomNumber)
  }

  /** The result rows of the inner join, in nested-loop order (rooms outer, buildings inner). */
  function JoinRows(rooms: seq<Room>, buildings: seq<Building>, roomNumber: string): (out: seq<(Room, Building)>)
    ensures forall rb :: rb in out <==> rb.0 in rooms && rb.1 in buildings && JoinsOn(rb.0, rb.1, roomNumber)
  {
    if rooms == [] then []
    else
      assert rooms == [rooms[0]] + rooms[1..];
      JoinedBuildings(rooms[0], buildings, roomNumber) + JoinRows(rooms[1..], buildings, roomNumber)
  }

  /** `fetchone()` of the join. */
  function RoomWithBuilding(rooms: seq<Room>, buildings: seq<Building>, roomNumber: string): (r: Option<(Room, Building)>)
    ensures r.None? <==> forall i, j :: 0 <= i < |rooms| && 0 <= j < |buildings| ==> !JoinsOn(rooms[i], buildings[j], roomNumber)
    ensures r.Some? ==> r.value.0 in rooms && r.value.1 in buildings && JoinsOn(r.value.0, r.value.1, roomNumber)
  {
    var rows := JoinRows(rooms, buildings, roomNumber);
    if rows == [] then
      assert forall i, j :: 0 <= i < |rooms| && 0 <= j < |buildings| ==> (rooms[i], buildings[j]) !in rows;
      None
    else
      assert rows[0] in rows;
      Some(rows[0])
  }

  /** Under the two primary keys the join has exactly one row for a room whose building exists. */
  lemma RoomWithBuildingUnique(rooms: seq<Room>, buildings: seq<Building>, last: int, i: int, j: int)
    requires RoomNumbersUnique(rooms) && BuildingKeysValid(buildings, last)
    requires 0 <= i < |rooms| && 0 <= j < |buildings|
    requires rooms[i].buildingId == Some(buildings[j].id)
    ensures RoomWithBuilding(rooms, buildings, rooms[i].roomNumber) == Some((rooms[i], buildings[j]))
  {
    var n := rooms[i].roomNumber;
    var r := RoomWithBuilding(rooms, buildings, n);
    assert JoinsOn(rooms[i], buildings[j], n);
    var room, b := r.value.0, r.value.1;
    var i' :| 0 <= i' < |rooms| && rooms[i'] == room;
    var j' :| 0 <= j' < |buildings| && buildings[j'] == b;
    assert i' == i;
    assert j' == j;
  }

  /** `WHERE building_id = ?` on amenities. */
  function AmenityRows(amenities: seq<Amenity>, buildingId: int): (out: seq<Amenity>)
    ensures forall a :: a in out <==> a in amenities && a.buildingId == buildingId
    ensures forall a :: multiset(out)[a] == if a.buildingId == buildingId then multiset(amenities)[a] else 0
  {
    FilterMultiset(amenities, (a: Amenity) => a.buildingId == buildingId);
    Filter(amenities, (a: Amenity) => a.buildingId == buildingId)
  }

  /** `WHERE restaurant_name = ? AND day = ?`; under SQL `=`, a NULL on either side matches nothing. */
  predicate ServedToday(m: MenuEntry, restaurant: Option<string>, today: string)
  {
    restaurant.Some? && m.restaurantName == restaurant && m.day == today
  }

  function MenuRows(menu: seq<MenuEntry>, restaurant: Option<string>, today: string): (out: seq<MenuEntry>)
    ensures forall m :: m in out <==> m in menu && ServedToday(m, restaurant, today)
    ensures restaurant.None? ==> out == []
  {
    Filter(menu, (m: MenuEntry) => ServedToday(m, restaurant, today))
  }

  /** `ORDER BY meal, item_name` */
  function MenuKey(m: MenuItem): (string, string) { (m.meal, m.itemName) }

  /**
   * Today's menu of the building's restaurant: a sorted permutation of exactly the
   * matching rows, projected onto (day, meal, item_name).
   */
  function TodaysMenu(menu: seq<MenuEntry>, restaurant: Option<string>, today: string): (r: seq<MenuItem>)
    ensures SortedBy(r, MenuKey)
    ensures multiset(r) == multiset(Project(MenuRows(menu, restaurant, today), MenuItemOf))
    ensures restaurant.None? ==> r == []
  {
    var rows := MenuRows(menu, restaurant, today);
    var r := SortBy(Project(rows, MenuItemOf), MenuKey);
    r
  }

  /** An item is on today's menu exactly when some row of today, for that restaurant, projects to it. */
  lemma TodaysMenuMembership(menu: seq<MenuEntry>, restaurant: Option<string>, today: string)
    ensures forall x :: x in TodaysMenu(menu, restaurant, today) <==>
              exists k :: 0 <= k < |menu| && ServedToday(menu[k], restaurant, today) && MenuItemOf(menu[k]) == x
    ensures forall x :: x in TodaysMenu(menu, restaurant, today) ==> x.day == today
  {
    var rows := MenuRows(menu, restaurant, today);
    var r := TodaysMenu(menu, restaurant, today);
    ProjectMembership(rows, MenuItemOf);
    forall x ensures x in r <==> x in Project(rows, MenuItemOf) {
      assert x in r <==> x in multiset(r);
      assert x in Project(rows, MenuItemOf) <==> x in multiset(Project(rows, MenuItemOf));
    }
    forall x | x in r ensures exists k :: 0 <= k < |menu| && ServedToday(menu[k], restaurant, today) && MenuItemOf(menu[k]) == x {
      var m :| m in rows && MenuItemOf(m) == x;
      var k :| 0 <= k < |menu| && menu[k] == m;
    }
  }

  /**
   * The order of the menu is fully determined: any other sorted permutation of the same
   * rows is this one, because rows of one day that tie on (meal, item_name) are identical.
   */
  lemma TodaysMenuIsTheOnlyOrder(menu: seq<MenuEntry>, restaurant: Option<string>, today: string, other: seq<MenuItem>)
    requires SortedBy(other, MenuKey)
    requires multiset(other) == multiset(Project(MenuRows(menu, restaurant, today), MenuItemOf))
    ensures other == TodaysMenu(menu, restaurant, today)
  {
    var r := TodaysMenu(menu, restaurant, today);
    TodaysMenuMembership(menu, restaurant, today);
    SortedPermutationUnique(r, other, MenuKey);
  }

  /** The full room snapshot, or the not-found value when the room does not join to a building. */
  function GetFullContext(t: Tables, roomNumber: string, today: string): (c: Context)
    ensures c.RoomNotFound? <==>
              forall i, j :: 0 <= i < |t.rooms| && 0 <= j < |t.buildings| ==> !JoinsOn(t.rooms[i], t.buildings[j], roomNumber)
    ensures c.RoomNotFound? ==> c == RoomNotFound("Room " + roomNumber + " not found.")
    ensures c.RoomContext? ==>
              && c.room.roomNumber == roomNumber
              && exists i, j :: 0 <= i < |t.rooms| && 0 <= j < |t.buildings|
                                && JoinsOn(t.rooms[i], t.buildings[j], roomNumber)
                                && c.room == RoomInfoOf(t.rooms[i]) && c.building == BuildingInfoOf(t.buildings[j])
    ensures c.RoomContext? ==> c.resident == ActiveResidentOfRoom(t.residents, roomNumber)
    ensures c.RoomContext? ==> c.amenities == Project(AmenityRows(t.amenities, c.building.id), AmenityInfoOf)
    ensures c.RoomContext? ==> c.waterSports == Project(t.waterSports, WaterSportInfoOf)
    ensures c.RoomContext? ==> c.pools == Project(t.pools, PoolInfoOf)
    ensures c.RoomContext? ==> c.restaurantMenu == TodaysMenu(t.menu, c.building.restaurantName, today)
  {
    var resident := ActiveResidentOfRoom(t.residents, roomNumber);
    match RoomWithBuilding(t.rooms, t.buildings, roomNumber)
    case None => RoomNotFound("Room " + roomNumber + " not found.")
    case Some((room, b)) =>
      RoomContext(
        resident,
        RoomInfoOf(room),
        BuildingInfoOf(b),
        Project(AmenityRows(t.amenities, b.id), AmenityInfoOf),
        Project(t.waterSports, WaterSportInfoOf),
        Project(t.pools, PoolInfoOf),
        TodaysMenu(t.menu, b.restaurantName, today))
  }

  /** A vacant room and an occupied one differ only in `resident`, which is None exactly when no active row has that room. */
  lemma ContextResidentExact(t: Tables, roomNumber: string, today: string)
    requires GetFullContext(t, roomNumber, today).RoomContext?
    ensures var c := GetFullContext(t, roomNumber, today);
            && (c.resident.None? <==> forall i :: 0 <= i < |t.residents| ==> !ActiveIn(t.residents[i], roomNumber))
            && (c.resident.Some? ==> exists i :: 0 <= i < |t.residents| && ActiveIn(t.residents[i], roomNumber)
                                                && c.resident.value == ContextResidentOf(t.residents[i]))
  {
  }

  /**
   * The amenities are exactly the rows of the room's building, each as often as it
   * occurs in the table, projected in table order.
   */
  lemma ContextAmenitiesExact(t: Tables, roomNumber: string, today: string)
    requires GetFullContext(t, roomNumber, today).RoomContext?
    ensures var c := GetFullContext(t, roomNumber, today);
            var rows := AmenityRows(t.amenities, c.building.id);
            && (forall x :: x in c.amenities <==>
                  exists a :: a in t.amenities && a.buildingId == c.building.id && AmenityInfoOf(a) == x)
            && (forall a :: multiset(rows)[a] == if a.buildingId == c.building.id then multiset(t.amenities)[a] else 0)
            && |c.amenities| == |rows|
            && forall k :: 0 <= k < |rows| ==> c.amenities[k] == AmenityInfoOf(rows[k])
  {
    var c := GetFullContext(t, roomNumber, today);
    ProjectMembership(AmenityRows(t.amenities, c.building.id), AmenityInfoOf);
  }

  /** For a room that exists in a building that exists, the context describes exactly that room and building. */
  lemma ContextOfExistingRoom(t: Tables, i: int, j: int, today: string)
    requires t.Valid()
    requires 0 <= i < |t.rooms| && 0 <= j < |t.buildings|
    requires t.rooms[i].buildingId == Some(t.buildings[j].id)
    ensures var c := GetFullContext(t, t.rooms[i].roomNumber, today);
            && c.RoomContext?
            && c.room == RoomInfoOf(t.rooms[i])
            && c.building == BuildingInfoOf(t.buildings[j])
            && Some(c.building.id) == t.rooms[i].buildingId
  {
    RoomWithBuildingUnique(t.rooms, t.buildings, t.buildingSeq, i, j);
  }

  /** The pool and water-sport catalogues do not depend on the room asked about. */
  lemma CataloguesIndependentOfRoom(t: Tables, n1: string, n2: string, today: string)
    requires GetFullContext(t, n1, today).RoomContext? && GetFullContext(t, n2, today).RoomContext?
    ensures GetFullContext(t, n1, today).pools == GetFullContext(t, n2, today).pools
    ensures GetFullContext(t, n1, today).waterSports == GetFullContext(t, n2, today).waterSports
  {
  }
}
