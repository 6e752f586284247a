# Tavv hotel assistant: data layer

The Tavv hotel assistant answers guests from a room tablet. Behind the chat sits one
SQLite database:

- `residents`: checked-in guests, each with a bearer device token.
- `buildings`, `wings`, `rooms`, `amenities`.
- `pools`, `water_sports`, `restaurant_menu`: the hotel-wide catalogues.

This project models that data layer in Dafny and proves what its statements do.

- **Context resolver** (`DatabaseLoader` in `pld-project-na-pamatay/hotel_db.py`), module
  `Resolver`. It authenticates a token as the active resident holding it. It builds the
  room snapshot the chat prompt is made from: the active resident of the room, the room
  joined to its building, that building's amenities, the two catalogues, and today's menu
  of the building's restaurant sorted by `(meal, item_name)`. A room that does not join
  gives the `{"error": "Room <n> not found."}` value. Both operations are pure functions of
  the table contents, so they are read-only by construction.
- **Admin tool** (`DatabaseManager` in `main/data/db_manager.py`), module `DbManager`.
  Every SQL statement is first given its meaning as a function on table contents
  (`InsertResident`, `InsertOrIgnoreBuilding`, `DeleteRoom`, …). The class
  `DatabaseManager` then applies that statement to the shared `Schema.Database` object in
  place. Each method's postcondition states the whole new state and that the schema
  constraints still hold.
- **Seed scripts** (`main/data/seed_db.py` and its near-copy
  `pld-project-na-pamatay/data/seed_db.py`), module `Seed`. This covers check-in,
  check-out (in-place voiding of a token), and the loops that give each room its floor and
  type from its position in the numbering list. It also covers the insert-or-ignore
  seeding of the two buildings and thirty rooms. On the parts modelled, the two scripts
  are the same code at shifted line numbers, and the table cites both.

SQL semantics used throughout (module `Sql`):

- `fetchone()` returns the first matching row in table order.
- `fetchall()` of a column list is a projection of the rows in table order, except for
  `list_buildings`, whose rows come back in name order from the covering UNIQUE index.
- A plain INSERT that meets a UNIQUE or PRIMARY KEY column fails with an `IntegrityError`
  and changes nothing; the source never catches it, and the model returns it as an `Err`
  value. INSERT OR IGNORE leaves the rows as they are instead.
- `INTEGER PRIMARY KEY AUTOINCREMENT` hands out the sqlite_sequence value plus one. Each
  table carries that value, and the invariant is that no id exceeds it. The id is handed
  out before the UNIQUE conflict is found, so a row that INSERT OR IGNORE skips still
  advances the sequence by one; a plain INSERT that fails is rolled back together with
  its sequence update.
- Foreign keys are not enforced (no `PRAGMA foreign_keys`): inserts check no referenced
  row and deletes do not cascade.
- Under SQL `=`, a NULL restaurant name matches nothing.
- `ORDER BY` compares TEXT with the BINARY collation, which is lexicographic order on code
  points.

The schema is `main/data/init_db.py`, plus the `wings` table and `rooms.wing_id` from
`pld-project-na-pamatay/data/init_db.py`. The source's two schema files disagree with the
code that uses them:

- The main schema has no `wings` table and no `rooms.wing_id`, so `add_wing`, `list_wings`,
  `delete_wing`, `add_room` and `list_rooms` of `main/data/db_manager.py` fail against it.
- The pld schema has no `checkout_time` or `token_voided` column, no restaurant or Wi-Fi
  column on `buildings`, and no `floor` or `room_type` on `rooms`. So the pld seed script
  and `hotel_db.py` fail against it.

The model follows the code and uses the union of the two schemas.

Inputs from outside the program are parameters:

- the fresh `uuid4` token;
- the `datetime.now().isoformat()` timestamps;
- the weekday name `datetime.now().strftime("%A")`.

## Model

| member | source | states |
|---|---|---|
| Schema.Database.constructor | main/data/init_db.py:39-128 | a fresh schema has every table empty, no id handed out, and satisfies all key constraints |
| Sql.First | pld-project-na-pamatay/hotel_db.py:26 | `fetchone()` is None iff no row matches; otherwise it is a matching row with no matching row before it |
| Sql.FirstOfUnique | pld-project-na-pamatay/hotel_db.py:20-26 | when exactly one row matches, `fetchone()` returns that row |
| Sql.FirstCongruent | pld-project-na-pamatay/hotel_db.py:20-26 | two tables that agree row by row on which rows match, and on the matching rows, give the same `fetchone()` |
| Sql.Filter | main/data/db_manager.py:36 | a WHERE scan keeps exactly the rows satisfying the condition; all rows when all satisfy it, none when none do |
| Sql.FilterMultiset | pld-project-na-pamatay/hotel_db.py:108-113 | every satisfying row is kept as often as it occurs, every other row is dropped |
| Sql.FilterDropsOne | main/data/db_manager.py:36 | when only row k fails the condition, the result is the table without row k, the rest in order |
| Sql.FilterPositions | pld-project-na-pamatay/hotel_db.py:108-113 | the filtered rows are the table's rows at strictly increasing positions, so a WHERE scan keeps table order |
| Sql.FilterKeepsKeyDistinct | main/data/db_manager.py:36 | a key that is distinct across the table stays distinct after a delete |
| Sql.Project | main/data/db_manager.py:44-45 | `fetchall()` of a column list keeps the row count and projects each row in place |
| Sql.ProjectMembership | pld-project-na-pamatay/hotel_db.py:152-163 | a value is in the projection iff some row projects to it |
| Sql.SortBy | pld-project-na-pamatay/hotel_db.py:129 | `ORDER BY` gives a nondecreasing permutation of its input |
| Sql.SortedPermutationUnique | pld-project-na-pamatay/hotel_db.py:129 | two sorted permutations of rows that are distinct on the sort key are equal |
| Resolver.GetResidentFromToken | pld-project-na-pamatay/hotel_db.py:17-40 | a record iff some row holds the token with `token_voided = 0`; the record copies such a row, with that token and `token_voided` false; otherwise None, never an error |
| Resolver.ActiveResidentAuthenticates | pld-project-na-pamatay/hotel_db.py:20-40 | under the UNIQUE token constraint, an active resident's token authenticates as exactly that resident |
| Resolver.ActiveResidentOfRoom | pld-project-na-pamatay/hotel_db.py:51-67 | None iff no active row has the room number; otherwise the first active row of the room, projected |
| Resolver.JoinRows | pld-project-na-pamatay/hotel_db.py:83-85 | the inner join holds exactly the (room, building) pairs with the room number and `r.building_id = b.building_id` |
| Resolver.RoomWithBuilding | pld-project-na-pamatay/hotel_db.py:70-87 | `fetchone()` of the join is None iff no pair joins; otherwise a joining pair from the two tables |
| Resolver.RoomWithBuildingUnique | pld-project-na-pamatay/hotel_db.py:70-87 | under the two primary keys, the join of a room whose building exists is exactly that room and building |
| Resolver.AmenityRows | pld-project-na-pamatay/hotel_db.py:108-113 | exactly the amenity rows of the building, with their multiplicities |
| Resolver.MenuRows | pld-project-na-pamatay/hotel_db.py:125-130 | exactly the menu rows of the restaurant for today; none when the restaurant name is NULL |
| Resolver.TodaysMenu | pld-project-na-pamatay/hotel_db.py:124-131 | sorted by `(meal, item_name)`, a permutation of the projected matching rows; empty for a NULL restaurant name |
| Resolver.TodaysMenuMembership | pld-project-na-pamatay/hotel_db.py:124-131 | an item is on the menu iff a row of that restaurant for today projects to it; every item is of today |
| Resolver.TodaysMenuIsTheOnlyOrder | pld-project-na-pamatay/hotel_db.py:129 | any sorted permutation of the rows equals the menu returned, so the order is fully determined |
| Resolver.GetFullContext | pld-project-na-pamatay/hotel_db.py:45-164 | not-found iff no room row with that number joins a building, and then exactly the error message; otherwise the room number equals the argument, and room and building come from one joined pair; resident, amenities, catalogues and menu are as their queries define |
| Resolver.ContextResidentExact | pld-project-na-pamatay/hotel_db.py:51-67 | the context's resident is None iff no active row has the room; otherwise it is built from an active row of the room |
| Resolver.ContextAmenitiesExact | pld-project-na-pamatay/hotel_db.py:108-113 | the amenities are exactly the building's rows as a multiset, projected in table order |
| Resolver.ContextOfExistingRoom | pld-project-na-pamatay/hotel_db.py:70-105 | for a stored room whose building exists, the context describes that room and that building, and `building.id` is the room's `building_id` |
| Resolver.CataloguesIndependentOfRoom | pld-project-na-pamatay/hotel_db.py:116-121 | pools and water sports are the same whichever room is asked about |
| DbManager.InsertResident | main/data/db_manager.py:20-30 | fails with the `device_token` constraint iff the token is taken; otherwise appends one row with the name, room, token, check-in time, next id, no checkout and `token_voided = 0`, keeping the old rows as a prefix |
| DbManager.InsertResidentKeepsKeys | main/data/init_db.py:41-47 | a successful check-in keeps resident ids and tokens distinct and within the sequence |
| DbManager.InsertedResidentAuthenticates | main/data/db_manager.py:20-30 | the token a check-in stores authenticates at once as the new resident |
| DbManager.DeleteResident | main/data/db_manager.py:33-38 | keeps exactly the rows whose id differs; an absent id changes nothing |
| DbManager.DeleteResidentRemovesOne | main/data/db_manager.py:33-38 | deleting an existing id removes that one row, the others stay in order, and the keys still hold |
| DbManager.InsertOrIgnoreBuilding | main/data/db_manager.py:52-57 | a taken name leaves the rows unchanged and still advances the sequence by one; otherwise one row is appended under the next id |
| DbManager.InsertOrIgnoreBuildingKeepsKeys | main/data/db_manager.py:52-57 | afterwards the name is present, the old rows are a prefix, and building ids and names stay distinct |
| DbManager.AddBuildingIdempotent | main/data/db_manager.py:52-57 | adding the same building twice leaves the rows of adding it once; the second add only uses up one more id |
| DbManager.DeleteBuilding | main/data/db_manager.py:68-73 | keeps exactly the buildings whose id differs |
| DbManager.DeleteBuildingRemovesOne | main/data/db_manager.py:68-73 | deleting an existing id removes that one row and keeps both keys |
| DbManager.DeletedBuildingOrphansItsRooms | main/data/db_manager.py:68-73 | no cascade: the building's rooms stay stored, and the resolver now reports each of them as not found |
| DbManager.InsertWing | main/data/db_manager.py:79-87 | appends exactly one wing under the next id, keeping the old rows as a prefix |
| DbManager.InsertWingFreshId | main/data/db_manager.py:79-87 | the new wing's id is used by no existing row, and the key still holds |
| DbManager.DeleteWing | main/data/db_manager.py:98-103 | keeps exactly the wings whose id differs |
| DbManager.DeleteWingRemovesOne | main/data/db_manager.py:98-103 | deleting an existing id removes that one row, the others stay in order |
| DbManager.InsertRoom | main/data/db_manager.py:109-117 | fails with the primary-key error iff the room number is taken, leaving the table unchanged; otherwise appends exactly the row; keeps room numbers unique |
| DbManager.DeleteRoom | main/data/db_manager.py:128-133 | keeps exactly the rooms with another number; an absent number changes nothing |
| DbManager.DeleteRoomRemovesOne | main/data/db_manager.py:128-133 | deleting an existing room removes that one row, the others stay in order, and the key holds |
| DbManager.InsertAmenity | main/data/db_manager.py:139-147 | appends exactly one amenity under the next id |
| DbManager.InsertAmenityFreshId | main/data/db_manager.py:139-147 | the new amenity's id is used by no existing row, and the key still holds |
| DbManager.DeleteAmenity | main/data/db_manager.py:158-163 | keeps exactly the amenities whose id differs |
| DbManager.DeleteAmenityRemovesOne | main/data/db_manager.py:158-163 | deleting an existing id removes that one row, the others stay in order |
| DbManager.DatabaseManager.AddResident | main/data/db_manager.py:20-30 | fails iff the token is taken; only `residents` and its sequence change, to the statement's result; constraints preserved |
| DbManager.DatabaseManager.DeleteResidentById | main/data/db_manager.py:33-38 | only `residents` changes, to the rows with another id; constraints preserved |
| DbManager.DatabaseManager.ListResidents | main/data/db_manager.py:41-47 | one tuple (id, name, room, token) per row, in table order |
| DbManager.DatabaseManager.AddBuilding | main/data/db_manager.py:52-57 | only `buildings` and its sequence change, as insert-or-ignore on the name defines (the sequence advances even when the name is taken); constraints preserved |
| DbManager.DatabaseManager.ListBuildings | main/data/db_manager.py:60-66 | one tuple (id, name) per row, the table's rows as a multiset, in BINARY order of name: SQLite answers this query from the covering UNIQUE index on `name` |
| DbManager.NameOrderedListingUnique | main/data/db_manager.py:60-66 | with UNIQUE names, any two name-ordered listings of the same rows are equal, so the listing is fully determined |
| DbManager.LaterSmallerNameListedFirst | main/data/db_manager.py:60-66 | a building added after one whose name sorts later is listed before it: name order, not id order |
| DbManager.DatabaseManager.DeleteBuildingById | main/data/db_manager.py:68-73 | only `buildings` changes; rooms, wings and amenities that reference the building remain |
| DbManager.DatabaseManager.AddWing | main/data/db_manager.py:79-87 | only `wings` and its sequence change, by one appended row; the building id is not checked |
| DbManager.DatabaseManager.ListWings | main/data/db_manager.py:90-96 | one tuple (id, building id, name, SSID) per row, in table order |
| DbManager.DatabaseManager.DeleteWingById | main/data/db_manager.py:98-103 | only `wings` changes, to the rows with another id |
| DbManager.DatabaseManager.AddRoom | main/data/db_manager.py:109-117 | fails iff the room number is taken, changing nothing; otherwise only `rooms` changes, by one row with NULL floor and type |
| DbManager.DatabaseManager.ListRooms | main/data/db_manager.py:120-126 | one tuple (number, building id, wing id) per row, in table order |
| DbManager.DatabaseManager.DeleteRoomByNumber | main/data/db_manager.py:128-133 | only `rooms` changes, to the rows with another number |
| DbManager.DatabaseManager.AddAmenity | main/data/db_manager.py:139-147 | only `amenities` and its sequence change, by one appended row |
| DbManager.DatabaseManager.ListAmenities | main/data/db_manager.py:150-156 | one tuple (id, building id, name, floor) per row, in table order |
| DbManager.DatabaseManager.DeleteAmenityById | main/data/db_manager.py:158-163 | only `amenities` changes, to the rows with another id |
| Seed.SeedResident | main/data/seed_db.py:11-24 | on success returns the token it stored and appends exactly the check-in row; fails, changing nothing, iff the token is taken |
| Seed.SeedingTwiceAddsTwoRows | pld-project-na-pamatay/data/seed_db.py:11-24 | two check-ins of the same guest with two fresh tokens add two rows; nothing is merged |
| Seed.VoidToken | main/data/seed_db.py:29-33 | the UPDATE's SET clause (`CheckOutRow`): every row holding the token gets the checkout time and `token_voided = 1`; every other row is unchanged |
| Seed.CheckOutResident | pld-project-na-pamatay/data/seed_db.py:27-34 | only `residents` changes, as the UPDATE defines; constraints preserved |
| Seed.CheckOutKeepsKeys | main/data/seed_db.py:29-33 | check-out keeps resident ids and tokens distinct |
| Seed.CheckedOutTokenIsRejected | main/data/seed_db.py:29-33 | after check-out the token no longer authenticates |
| Seed.CheckOutSparesOtherTokens | pld-project-na-pamatay/data/seed_db.py:29-33 | every other token authenticates exactly as before the check-out |
| Seed.CheckOutTwice | main/data/seed_db.py:27-34 | checking out twice equals checking out once at the later time, and `token_voided` stays 1 |
| Seed.VoidedTokenCannotBeReissued | main/data/seed_db.py:11-33 | a voided token stays stored, so a new check-in with it is rejected |
| Seed.CheckOutVacatesRoom | main/data/seed_db.py:29-33 | when the departing guest was the room's only active resident, the room's context resident becomes None |
| Seed.TokenLifeCycle | main/data/seed_db.py:11-34 | a token authenticates as the new resident right after check-in, and not after check-out, which stamps the checkout time |
| Seed.DecimalRoundTrip | main/data/seed_db.py:89 | reading back `str(n)` (`NatToString`) gives `n` |
| Seed.NatToStringInjective | main/data/seed_db.py:89 | distinct numbers give distinct room-number strings |
| Seed.ThreeDigits | main/data/seed_db.py:89 | a three-digit number is written as its three digits |
| Seed.FloorOf | main/data/seed_db.py:87 | for positions 0..14, the floor is in 1..3, keys the type map, and `i % 5` indexes its list |
| Seed.RoomTypeAt | main/data/seed_db.py:77-88 | floor 1 alternates King/Twin, floor 2 alternates Deluxe/Family, floor 3 is always "Bedroom Executive" |
| Seed.RoomRows | main/data/seed_db.py:84-97 | one row per position, in list order, each the appended tuple (`RoomRow`) built by the floor and type rule |
| Seed.BuildRoomRows | pld-project-na-pamatay/data/seed_db.py:70-83 | the enumerate loop builds exactly `RoomRows` of its list |
| Seed.RoomNumberAt | main/data/seed_db.py:85-93 | position i of each list is room `<building><floor><i % 5 + 1>` |
| Seed.FloorIsMiddleDigit | main/data/seed_db.py:85-97 | the room-number string is the building digit, the floor digit and the position digit |
| Seed.SeedNumbersDistinct | pld-project-na-pamatay/data/seed_db.py:71-79 | the thirty numbers of the two lists strictly increase, so they are distinct |
| Seed.SeedRoomsShape | main/data/seed_db.py:84-102 | `main_rooms + second_rooms` (`SeedRooms`) is thirty rows: position i < 15 is the Main Building's i-th row (with `main_id` and the Samsung fixtures), position i >= 15 the Second Building's (i - 15)-th (with `second_id` and LG) |
| Seed.BuildSeedRooms | main/data/seed_db.py:83-102 | the two loops together build exactly `main_rooms + second_rooms` |
| Seed.SeedRoomsHaveDistinctNumbers | pld-project-na-pamatay/data/seed_db.py:70-88 | the thirty generated room-number strings are pairwise distinct |
| Seed.SeedRoomsFollowFloorRule | main/data/seed_db.py:77-97 | every generated room is on floor 1 to 3, has a three-character number whose middle digit is its floor, and floor 3 is executive |
| Seed.InsertOrIgnoreRoom | main/data/seed_db.py:99-102 | a taken room number leaves the table unchanged; otherwise the row is appended |
| Seed.InsertOrIgnoreRooms | main/data/seed_db.py:99-102 | old rows stay as a prefix and room numbers stay unique |
| Seed.InsertOrIgnoreRoomsCovers | main/data/seed_db.py:99-102 | afterwards every offered room number is in the table |
| Seed.InsertOrIgnoreRoomsPresent | pld-project-na-pamatay/data/seed_db.py:85-88 | when every offered room number is taken, the table is unchanged |
| Seed.InsertOrIgnoreFreshRooms | main/data/seed_db.py:99-102 | offering distinct new numbers appends all the rows, in order |
| Seed.InsertOrIgnoreBuildings | main/data/seed_db.py:57-65 | old rows stay a prefix, keys hold, every fixture name is present after, the sequence advances by one per offered row, and the rows are unchanged when all names are present already |
| Seed.BuildingIdByName | main/data/seed_db.py:68-71 | None iff no building has the name; otherwise the id of a building with that name |
| Seed.SeedTables | pld-project-na-pamatay/data/seed_db.py:43-88 | only `buildings` and `rooms` change, and the schema constraints are preserved |
| Seed.InsertBuildingFixtures | main/data/seed_db.py:57-65 | only `buildings` and its sequence change, and both fixture names are present after |
| Seed.InsertGeneratedRooms | main/data/seed_db.py:73-102 | only `rooms` changes, by insert-or-ignore of the thirty rows built for the two given building ids |
| Seed.SeedBuildingsAndRooms | main/data/seed_db.py:57-102 | the database becomes `SeedTables` of its old state: fixtures inserted, ids looked up by name, rooms inserted |
| Seed.BuildingFixturesIdempotent | main/data/seed_db.py:57-65 | offering the two fixtures again keeps the building rows and advances the sequence by two |
| Seed.SeedTablesRerun | pld-project-na-pamatay/data/seed_db.py:43-88 | over tables that already hold both fixtures and all thirty room numbers, a run changes only the buildings sequence, by two |
| Seed.SeedTablesCovers | pld-project-na-pamatay/data/seed_db.py:43-88 | after a run both fixture names are taken and all thirty generated room numbers are in use |
| Seed.SeedTablesIdempotent | pld-project-na-pamatay/data/seed_db.py:43-88 | re-running the building and room part of the seed leaves every table as the first run left it; only the buildings sequence advances, by two. The resident, hotel and other fixture inserts are outside `SeedTables` |
| Seed.SeedBuildingsOnEmpty | main/data/seed_db.py:57-65 | into an empty `buildings` table the two fixtures go in as buildings 1 and 2, in order, and the sequence ends at 2 |
| Seed.SeedRoomsOnEmpty | main/data/seed_db.py:99-102 | into an empty `rooms` table all thirty generated rows go in, in order |
| Seed.SeedEmptyDatabase | main/data/seed_db.py:57-102 | with no buildings and no rooms yet, the seed creates buildings 1 and 2 with their fixtures, the sequence ends at 2, and `rooms` is exactly the thirty generated rows |

## Left out

- Connections, commits, `os.makedirs`, and writing or removing token files are I/O. Check-out
  removes `device_token.txt`, a file name the seeder never writes (it writes to the
  `device_file` argument).
- The status lines that `print` writes are output only.
- `uuid.uuid4()` and `datetime.now()` are parameters. A fresh uuid never clashes in practice,
  so `SeedResident` and `AddResident` fail only when the caller passes a token already stored.
- `main_menu` of `main/data/db_manager.py` is an interactive input/print loop and is not part
  of this model.
- The hotel, pool, water-sport, menu, housekeeping and amenity fixture rows of the seed
  scripts are not modelled. `hotel.name` is UNIQUE, so on a re-run the hotel row is skipped
  (and its sequence still advances). The other fixture tables have no UNIQUE column, so
  every re-run appends their rows again.
- The desktop UI, the video and worker threads, and the `chat` functions that call the
  hosted language model are not part of this model. Their `if not context_data` guard can
  never fire, because `GetFullContext` always returns a non-empty value.
- `pld-project-na-pamatay/data/resident_seed.py` is a fixture list and is not part of this
  model. The DDL scripts are used only for the record types and key constraints.
- Seed.RoomTypeAt: requires a position below 15. The source would raise KeyError past the
  third floor; both numbering lists have exactly fifteen entries.
- Seed.BuildRoomRows: requires at most fifteen numbers, for the same reason.
- Seed.BuildingIdByName: the `fetchone()[0]` of a missing name would raise TypeError. After
  the insert-or-ignore both names are always present, which `InsertBuildingFixtures` states.
- TEXT and INTEGER columns that the source always fills are plain strings and ints, not
  options: names, descriptions, the wing Wi-Fi columns, and an amenity's building and floor.
  The columns that some insert leaves NULL are `Option`s. So are `Room.buildingId` and
  `Resident.checkinTime`, although every insert in this core fills them: the schema leaves
  both nullable, and a NULL building id simply joins to no building.
- `token_voided` is kept as the stored integer. Only the values 0 and 1 are ever written.
- An AUTOINCREMENT id at the 64-bit maximum (SQLITE_FULL) is not modelled; ids are
  unbounded integers.
- The resolver opens a connection and closes it; both of its operations are pure functions
  here, so "no table changes" holds by construction and is not a separate lemma.
- The order of `fetchall()` without ORDER BY follows the query plan SQLite chooses, which
  the model fixes per query. Where no index covers the selected columns (residents, wings,
  rooms, amenities, pools, water sports, the amenity scan), SQLite scans the table, in rowid
  order. `list_buildings` selects only `building_id` (the rowid) and `name`, which the
  UNIQUE index on `name` covers, so it is answered in name order. Any other plan a future
  SQLite might choose is not modelled.
