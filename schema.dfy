/**
 * The hotel database schema: one record type per table, the key constraints the
 * CREATE TABLE statements declare, and the database itself as an object whose
 * tables the admin and seed scripts update in place.
 *
 * Nullable columns that some insert path leaves unset are `Option`s. Every table
 * declared `INTEGER PRIMARY KEY AUTOINCREMENT` carries its sqlite_sequence entry
 * (the largest id ever handed out) next to its rows.
 */
module Schema {
  import opened Wrappers

  /** A row of `residents`; `tokenVoided` is the INTEGER column, 0 while the token is active. */
  datatype Resident = Resident(
    id: int,
    name: string,
    roomNumber: string,
    deviceToken: string,
    checkinTime: Option<string>,
    checkoutTime: Option<string>,
    tokenVoided: int)

  /** A row of `buildings`; `add_building` sets only the name, so the other columns may be NULL. */
  datatype Building = Building(
    id: int,
    name: string,
    wifiSsid: Option<string>,
    wifiPassword: Option<string>,
    restaurantName: Option<string>)

  /** A row of `wings`. */
  datatype Wing = Wing(id: int, buildingId: int, name: string, wifiSsid: string, wifiPassword: string)

  /**
   * A row of `rooms`, keyed by its TEXT room number. The seed scripts leave `wingId`
   * NULL and the admin `add_room` leaves `floor` and `roomType` NULL.
   */
  datatype Room = Room(
    roomNumber: string,
    buildingId: Option<int>,
    wingId: Option<int>,
    floor: Option<int>,
    roomType: Option<string>,
    tvBrand: string,
    fanType: string,
    thermostatModel: string)

  /** A row of `amenities`. */
  datatype Amenity = Amenity(id: int, buildingId: int, name: string, description: string, floor: int)

  /** A row of `pools`. */
  datatype Pool = Pool(id: int, name: string, features: string)

  /** A row of `water_sports`. */
  datatype WaterSport = WaterSport(id: int, name: string, description: string)

  /** A row of `restaurant_menu`; a NULL restaurant name matches no restaurant. */
  datatype MenuEntry = MenuEntry(id: int, day: string, meal: string, itemName: string, restaurantName: Option<string>)

  /** What sqlite3 raises when a plain INSERT meets a UNIQUE or PRIMARY KEY column. */
  datatype IntegrityError = UniqueConstraintFailed(column: string)

  /** The contents of every table at one moment, with the sqlite_sequence entries. */
  datatype Tables = Tables(
    residents: seq<Resident>, residentSeq: int,
    buildings: seq<Building>, buildingSeq: int,
    wings: seq<Wing>, wingSeq: int,
    rooms: seq<Room>,
    amenities: seq<Amenity>, amenitySeq: int,
    pools: seq<Pool>,
    waterSports: seq<WaterSport>,
    menu: seq<MenuEntry>)
  {
    /** The constraints the schema declares, and the sqlite_sequence bound on every id. */
    predicate Valid()
    {
      && ResidentKeysValid(residents, residentSeq)
      && BuildingKeysValid(buildings, buildingSeq)
      && WingKeysValid(wings, wingSeq)
      && RoomNumbersUnique(rooms)
      && AmenityKeysValid(amenities, amenitySeq)
    }
  }

  // ---------------------------------------------------------------------------
  // Key constraints
  // ---------------------------------------------------------------------------

  predicate TokenInUse(rs: seq<Resident>, token: string)
  {
    exists i :: 0 <= i < |rs| && rs[i].deviceToken == token
  }

  /** `resident_id` is a primary key, `device_token` is UNIQUE, and no id exceeds the sequence. */
  predicate ResidentKeysValid(rs: seq<Resident>, last: int)
  {
    && (forall i, j :: 0 <= i < j < |rs| ==> rs[i].id != rs[j].id)
    && (forall i, j :: 0 <= i < j < |rs| ==> rs[i].deviceToken != rs[j].deviceToken)
    && (forall i :: 0 <= i < |rs| ==> rs[i].id <= last)
  }

  predicate BuildingNameInUse(bs: seq<Building>, name: string)
  {
    exists i :: 0 <= i < |bs| && bs[i].name == name
  }

  /** `building_id` is a primary key, `name` is UNIQUE, and no id exceeds the sequence. */
  predicate BuildingKeysValid(bs: seq<Building>, last: int)
  {
    && (forall i, j :: 0 <= i < j < |bs| ==> bs[i].id != bs[j].id)
    && (forall i, j :: 0 <= i < j < |bs| ==> bs[i].name != bs[j].name)
    && (forall i :: 0 <= i < |bs| ==> bs[i].id <= last)
  }

  predicate WingKeysValid(ws: seq<Wing>, last: int)
  {
    && (forall i, j :: 0 <= i < j < |ws| ==> ws[i].id != ws[j].id)
    && (forall i :: 0 <= i < |ws| ==> ws[i].id <= last)
  }

  predicate RoomNumberInUse(rooms: seq<Room>, n: string)
  {
    exists i :: 0 <= i < |rooms| && rooms[i].roomNumber == n
  }

  /** `room_number` is the primary key of `rooms`. */
  predicate RoomNumbersUnique(rooms: seq<Room>)
  {
    forall i, j :: 0 <= i < j < |rooms| ==> rooms[i].roomNumber != rooms[j].roomNumber
  }

  predicate AmenityKeysValid(am: seq<Amenity>, last: int)
  {
    && (forall i, j :: 0 <= i < j < |am| ==> am[i].id != am[j].id)
    && (forall i :: 0 <= i < |am| ==> am[i].id <= last)
  }

  // ---------------------------------------------------------------------------
  // The database file
  // ---------------------------------------------------------------------------

  /** The SQLite database the admin tool, the seed scripts and the resolver share. */
  class Database {
    var residents: seq<Resident>
    var residentSeq: int
    var buildings: seq<Building>
    var buildingSeq: int
    var wings: seq<Wing>
    var wingSeq: int
    var rooms: seq<Room>
    var amenities: seq<Amenity>
    var amenitySeq: int
    var pools: seq<Pool>
    var waterSports: seq<WaterSport>
    var menu: seq<MenuEntry>

    /** The current contents of every table. */
    function Snapshot(): Tables
      reads this
    {
      Tables(residents, residentSeq, buildings, buildingSeq, wings, wingSeq,
             rooms, amenities, amenitySeq, pools, waterSports, menu)
    }

    ghost predicate Valid()
      reads this
    {
      Snapshot().Valid()
    }

    /** A freshly created schema: every table empty, no id handed out yet. */
    constructor ()
      ensures Valid()
      ensures Snapshot() == Tables([], 0, [], 0, [], 0, [], [], 0, [], [], [])
    {
      residents, residentSeq := [], 0;
      buildings, buildingSeq := [], 0;
      wings, wingSeq := [], 0;
      rooms := [];
      amenities, amenitySeq := [], 0;
      pools, waterSports, menu := [], [], [];
    }
  }
}
