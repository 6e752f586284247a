/**
 * The seed scripts (main/data/seed_db.py and its near-copy in pld-project-na-pamatay/data):
 * resident check-in and check-out, the building fixtures, and the loops that derive
 * each room's floor and type from its position in the numbering list. Both scripts
 * run the same statements on the parts modelled here. The fresh token and the
 * clock reading are parameters.
 */
module Seed {
  import opened Wrappers
  import opened Sql
  import opened Schema
  import Resolver
  import DbManager

  // ---------------------------------------------------------------------------
  // Check-in and check-out
  // ---------------------------------------------------------------------------

  /**
   * `seed_resident`: the same plain insert as the admin check-in; the token it stored
   * is returned.
   */
  method SeedResident(db: Database, name: string, roomNumber: string, token: string, now: string)
    returns (r: Result<string, IntegrityError>)
    requires db.Valid()
    modifies db
    ensures db.Valid()
    ensures r.Ok? <==> !TokenInUse(old(db.residents), token)
    ensures r.Ok? ==> r.value == token
    ensures match DbManager.InsertResident(old(db.residents), old(db.residentSeq), name, roomNumber, token, now)
            case Ok((rs, last)) => db.Snapshot() == old(db.Snapshot()).(residents := rs, residentSeq := last)
            case Err(_) => db.Snapshot() == old(db.Snapshot())
  {
    DbManager.InsertResidentKeepsKeys(db.residents, db.residentSeq, name, roomNumber, token, now);
    match DbManager.InsertResident(db.residents, db.residentSeq, name, roomNumber, token, now)
    case Ok((rs, last)) =>
      db.residents, db.residentSeq := rs, last;
      r := Ok(token);
    case Err(e) =>
      r := Err(e);
  }

  /** Check-in never merges guests: two check-ins with two fresh tokens add two active rows. */
  lemma SeedingTwiceAddsTwoRows(rs: seq<Resident>, last: int, name: string, roomNumber: string,
                                t1: string, t2: string, now1: string, now2: string)
    requires t1 != t2 && !TokenInUse(rs, t1) && !TokenInUse(rs, t2)
    ensures var r1 := DbManager.InsertResident(rs, last, name, roomNumber, t1, now1);
            && r1.Ok?
            && var r2 := DbManager.InsertResident(r1.value.0, r1.value.1, name, roomNumber, t2, now2);
            && r2.Ok?
            && r2.value.0 == rs + [DbManager.NewResident(last + 1, name, roomNumber, t1, now1),
                                   DbManager.NewResident(last + 2, name, roomNumber, t2, now2)]
  {
    var r1 := DbManager.InsertResident(rs, last, name, roomNumber, t1, now1);
    assert !TokenInUse(r1.value.0, t2) by {
      forall i | 0 <= i < |r1.value.0| ensures r1.value.0[i].deviceToken != t2 {
        if i < |rs| { assert r1.value.0[i] == rs[i]; }
      }
    }
  }

  /** One row as `UPDATE residents SET checkout_time = ?, token_voided = 1 WHERE device_token = ?` leaves it. */
  function CheckOutRow(r: Resident, token: string, now: string): Resident
  {
    if r.deviceToken == token then r.(checkoutTime := Some(now), tokenVoided := 1) else r
  }

  /** The whole UPDATE: every row holding the token is voided and stamped, every other row is untouched. */
  function VoidToken(rs: seq<Resident>, token: string, now: string): (r: seq<Resident>)
    ensures |r| == |rs|
    ensures forall i :: 0 <= i < |rs| && rs[i].deviceToken == token ==>
              r[i] == rs[i].(checkoutTime := Some(now), tokenVoided := 1)
    ensures forall i :: 0 <= i < |rs| && rs[i].deviceToken != token ==> r[i] == rs[i]
  {
    Project(rs, (x: Resident) => CheckOutRow(x, token, now))
  }

  /** `check_out_resident`: rewrites the resident rows in place; nothing else changes. */
  method CheckOutResident(db: Database, token: string, now: string)
    requires db.Valid()
    modifies db
    ensures db.Valid()
    ensures db.Snapshot() == old(db.Snapshot()).(residents := VoidToken(old(db.residents), token, now))
  {
    CheckOutKeepsKeys(db.residents, db.residentSeq, token, now);
    db.residents := VoidToken(db.residents, token, now);
  }

  /** Check-out changes no id and no token, so both keys still hold. */
  lemma CheckOutKeepsKeys(rs: seq<Resident>, last: int, token: string, now: string)
    requires ResidentKeysValid(rs, last)
    ensures ResidentKeysValid(VoidToken(rs, token, now), last)
  {
    var r := VoidToken(rs, token, now);
    assert forall i :: 0 <= i < |rs| ==> r[i].id == rs[i].id && r[i].deviceToken == rs[i].deviceToken;
  }

  /** After check-out the token no longer authenticates. */
  lemma CheckedOutTokenIsRejected(rs: seq<Resident>, token: string, now: string)
    ensures Resolver.GetResidentFromToken(VoidToken(rs, token, now), token) == None
  {
    var r := VoidToken(rs, token, now);
    forall i | 0 <= i < |r| ensures !Resolver.HoldsActiveToken(r[i], token) {
      if rs[i].deviceToken == token {
        assert r[i].tokenVoided == 1;
      }
    }
  }

  /** Every other token authenticates exactly as before. */
  lemma CheckOutSparesOtherTokens(rs: seq<Resident>, token: string, other: string, now: string)
    requires other != token
    ensures Resolver.GetResidentFromToken(VoidToken(rs, token, now), other) == Resolver.GetResidentFromToken(rs, other)
  {
    var p := (x: Resident) => Resolver.HoldsActiveToken(x, other);
    var r := VoidToken(rs, token, now);
    forall i | 0 <= i < |rs| ensures p(rs[i]) == p(r[i]) && (p(rs[i]) ==> rs[i] == r[i]) {
    }
    FirstCongruent(rs, r, p);
  }

  /** Checking out twice is checking out once at the later time; `token_voided` stays 1. */
  lemma CheckOutTwice(rs: seq<Resident>, token: string, now1: string, now2: string)
    ensures VoidToken(VoidToken(rs, token, now1), token, now2) == VoidToken(rs, token, now2)
    ensures forall i :: 0 <= i < |rs| && rs[i].deviceToken == token ==>
              VoidToken(VoidToken(rs, token, now1), token, now2)[i].tokenVoided == 1
  {
    var a := VoidToken(VoidToken(rs, token, now1), token, now2);
    var b := VoidToken(rs, token, now2);
    assert forall i :: 0 <= i < |rs| ==> a[i] == b[i];
  }

  /** A voided token cannot be handed out again: the UNIQUE constraint rejects a new check-in with it. */
  lemma VoidedTokenCannotBeReissued(rs: seq<Resident>, last: int, token: string, now: string,
                                    name: string, roomNumber: string, later: string)
    requires TokenInUse(rs, token)
    ensures DbManager.InsertResident(VoidToken(rs, token, now), last, name, roomNumber, token, later).Err?
  {
    var k :| 0 <= k < |rs| && rs[k].deviceToken == token;
    assert VoidToken(rs, token, now)[k].deviceToken == token;
  }

  /** When the departing guest was the only active resident of the room, the room becomes vacant. */
  lemma CheckOutVacatesRoom(rs: seq<Resident>, k: int, now: string)
    requires 0 <= k < |rs| && rs[k].tokenVoided == 0
    requires forall i :: 0 <= i < |rs| && i != k ==> !Resolver.ActiveIn(rs[i], rs[k].roomNumber)
    ensures Resolver.ActiveResidentOfRoom(rs, rs[k].roomNumber) == Some(Resolver.ContextResidentOf(rs[k]))
    ensures Resolver.ActiveResidentOfRoom(VoidToken(rs, rs[k].deviceToken, now), rs[k].roomNumber) == None
  {
    var r := VoidToken(rs, rs[k].deviceToken, now);
    forall i | 0 <= i < |r| ensures !Resolver.ActiveIn(r[i], rs[k].roomNumber) {
      if rs[i].deviceToken != rs[k].deviceToken {
        assert r[i] == rs[i];
      }
    }
  }

  /**
   * The check-in / check-out life cycle of one token: it authenticates as the new
   * resident right after check-in, and never again after check-out.
   */
  lemma TokenLifeCycle(rs: seq<Resident>, last: int, name: string, roomNumber: string,
                       token: string, checkin: string, checkout: string)
    requires ResidentKeysValid(rs, last) && !TokenInUse(rs, token)
    ensures var r := DbManager.InsertResident(rs, last, name, roomNumber, token, checkin);
            && r.Ok?
            && Resolver.GetResidentFromToken(r.value.0, token)
               == Some(Resolver.RecordOf(DbManager.NewResident(last + 1, name, roomNumber, token, checkin)))
            && Resolver.GetResidentFromToken(VoidToken(r.value.0, token, checkout), token) == None
            && VoidToken(r.value.0, token, checkout)[|rs|].checkoutTime == Some(checkout)
  {
    var r := DbManager.InsertResident(rs, last, name, roomNumber, token, checkin);
    DbManager.InsertedResidentAuthenticates(rs, last, name, roomNumber, token, checkin);
    CheckedOutTokenIsRejected(r.value.0, token, checkout);
  }

  // ---------------------------------------------------------------------------
  // Room numbers as text
  // ---------------------------------------------------------------------------

  function DigitChar(d: nat): char
    requires d < 10
  {
    ('0' as int + d) as char
  }

  function DigitValue(c: char): int
  {
    c as int - '0' as int
  }

  /** `str(n)` for a non-negative int: its decimal digits, most significant first, no leading zero. */
  function NatToString(n: nat): (s: string)
    ensures |s| >= 1
  {
    if n < 10 then [DigitChar(n)] else NatToString(n / 10) + [DigitChar(n % 10)]
  }

  /** Reads a string of decimal digits back as a number. */
  function DecimalValue(s: string): int
  {
    if s == [] then 0 else DecimalValue(s[..|s| - 1]) * 10 + DigitValue(s[|s| - 1])
  }

  lemma {:induction false} DecimalRoundTrip(n: nat)
    ensures DecimalValue(NatToString(n)) == n
  {
    var s := NatToString(n);
    assert DigitValue(DigitChar(n % 10)) == n % 10;
    if n >= 10 {
      assert s[..|s| - 1] == NatToString(n / 10);
      DecimalRoundTrip(n / 10);
    }
  }

  /** Distinct numbers give distinct room-number strings. */
  lemma NatToStringInjective(m: nat, n: nat)
    requires m != n
    ensures NatToString(m) != NatToString(n)
  {
    DecimalRoundTrip(m);
    DecimalRoundTrip(n);
  }

  /** Appending a digit `d` to the decimal form of `m` gives the decimal form of `10 * m + d`. */
  lemma AppendDigit(n: nat, m: nat, d: nat)
    requires 1 <= m && d < 10 && n == 10 * m + d
    ensures NatToString(n) == NatToString(m) + [DigitChar(d)]
  {
    assert n / 10 == m && n % 10 == d;
  }

  lemma SeqOfThree(x: char, y: char, z: char)
    ensures [x] + [y] + [z] == [x, y, z]
  {
  }

  /** A three-digit number is written as its hundreds, tens and units digits. */
  lemma ThreeDigits(a: nat, b: nat, c: nat)
    requires 1 <= a < 10 && b < 10 && c < 10
    ensures NatToString(100 * a + 10 * b + c) == [DigitChar(a), DigitChar(b), DigitChar(c)]
  {
    var m := 10 * a + b;
    AppendDigit(100 * a + 10 * b + c, m, c);
    AppendDigit(m, a, b);
    assert NatToString(a) == [DigitChar(a)];
    SeqOfThree(DigitChar(a), DigitChar(b), DigitChar(c));
  }

  // ---------------------------------------------------------------------------
  // The floor and room-type rule
  // ---------------------------------------------------------------------------

  /** The room types of each floor, five per floor, keyed by floor number. */
  const FloorRoomTypes: map<int, seq<string>> := map[
    1 := ["Superior King", "Superior Twin", "Superior King", "Superior Twin", "Superior King"],
    2 := ["Bedroom Deluxe", "Bedroom Family", "Bedroom Deluxe", "Bedroom Family", "Bedroom Deluxe"],
    3 := ["Bedroom Executive", "Bedroom Executive", "Bedroom Executive", "Bedroom Executive", "Bedroom Executive"]
  ]

  const MainRoomNumbers: seq<nat> := [111, 112, 113, 114, 115, 121, 122, 123, 124, 125, 131, 132, 133, 134, 135]
  const SecondRoomNumbers: seq<nat> := [211, 212, 213, 214, 215, 221, 222, 223, 224, 225, 231, 232, 233, 234, 235]

  /** `(i // 5) + 1`: five rooms to a floor. */
  function FloorOf(i: nat): (f: int)
    ensures i < 15 ==> 1 <= f <= 3
    ensures i < 15 ==> f in FloorRoomTypes && i % 5 < |FloorRoomTypes[f]|
  {
    i / 5 + 1
  }

  /**
   * `floor_room_types[floor][i % 5]`. The lookup raises KeyError past the fifteenth
   * position, which both numbering lists stay within.
   */
  function RoomTypeAt(i: nat): (t: string)
    requires i < 15
    ensures FloorOf(i) == 1 ==> t == if i % 2 == 0 then "Superior King" else "Superior Twin"
    ensures FloorOf(i) == 2 ==> t == if i % 2 == 1 then "Bedroom Deluxe" else "Bedroom Family"
    ensures FloorOf(i) == 3 ==> t == "Bedroom Executive"
  {
    FloorRoomTypes[FloorOf(i)][i % 5]
  }

  /** The tuple the loop appends for position `i` of a building's numbering list. */
  function RoomRow(i: nat, num: nat, buildingId: int, tvBrand: string, fanType: string, thermostatModel: string): Room
    requires i < 15
  {
    Room(NatToString(num), Some(buildingId), None, Some(FloorOf(i)), Some(RoomTypeAt(i)), tvBrand, fanType, thermostatModel)
  }

  /** Everything one loop builds: one row per position, in list order. */
  function RoomRows(numbers: seq<nat>, buildingId: int, tvBrand: string, fanType: string, thermostatModel: string)
    : (rows: seq<Room>)
    requires |numbers| <= 15
    ensures |rows| == |numbers|
    ensures forall i :: 0 <= i < |numbers| ==> rows[i] == RoomRow(i, numbers[i], buildingId, tvBrand, fanType, thermostatModel)
  {
    seq(|numbers|, i requires 0 <= i < |numbers| => RoomRow(i, numbers[i], buildingId, tvBrand, fanType, thermostatModel))
  }

  /** `for i, num in enumerate(numbers): rooms.append(...)` */
  method BuildRoomRows(numbers: seq<nat>, buildingId: int, tvBrand: string, fanType: string, thermostatModel: string)
    returns (rows: seq<Room>)
    requires |numbers| <= 15
    ensures rows == RoomRows(numbers, buildingId, tvBrand, fanType, thermostatModel)
  {
    rows := [];
    var i := 0;
    while i < |numbers|
      invariant 0 <= i <= |numbers|
      invariant |rows| == i
      invariant forall j :: 0 <= j < i ==> rows[j] == RoomRow(j, numbers[j], buildingId, tvBrand, fanType, thermostatModel)
    {
      var floor := i / 5 + 1;
      var roomType := FloorRoomTypes[floor][i % 5];
      rows := rows + [Room(NatToString(numbers[i]), Some(buildingId), None, Some(floor), Some(roomType),
                           tvBrand, fanType, thermostatModel)];
      i := i + 1;
    }
  }

  /** Each of the fifteen positions of a list is room `<building digit><floor><1..5>`. */
  lemma RoomNumberAt(i: nat)
    requires i < 15
    ensures MainRoomNumbers[i] == 100 + 10 * FloorOf(i) + i % 5 + 1
    ensures SecondRoomNumbers[i] == 200 + 10 * FloorOf(i) + i % 5 + 1
  {
    assert i == 0 || i == 1 || i == 2 || i == 3 || i == 4 || i == 5 || i == 6 || i == 7
        || i == 8 || i == 9 || i == 10 || i == 11 || i == 12 || i == 13 || i == 14;
  }

  /** The floor a room is given is the middle digit of its number. */
  lemma FloorIsMiddleDigit(i: nat)
    requires i < 15
    ensures NatToString(MainRoomNumbers[i]) == ['1', DigitChar(FloorOf(i)), DigitChar(i % 5 + 1)]
    ensures NatToString(SecondRoomNumbers[i]) == ['2', DigitChar(FloorOf(i)), DigitChar(i % 5 + 1)]
  {
    RoomNumberAt(i);
    var f := FloorOf(i);
    var k := i % 5 + 1;
    ThreeDigits(1, f, k);
    ThreeDigits(2, f, k);
    assert DigitChar(1) == '1' && DigitChar(2) == '2';
  }

  /** The thirty room numbers of the two buildings are pairwise distinct. */
  lemma {:induction false} SeedNumbersDistinct()
    ensures forall i, j :: 0 <= i < j < |MainRoomNumbers + SecondRoomNumbers| ==>
              (MainRoomNumbers + SecondRoomNumbers)[i] < (MainRoomNumbers + SecondRoomNumbers)[j]
  {
    var all := MainRoomNumbers + SecondRoomNumbers;
    forall i, j | 0 <= i < j < |all| ensures all[i] < all[j] {
      if j < 15 {
        assert all[i] == MainRoomNumbers[i] && all[j] == MainRoomNumbers[j];
        RoomNumberAt(i);
        RoomNumberAt(j);
        PositionOrder(i, j);
      } else if i >= 15 {
        assert all[i] == SecondRoomNumbers[i - 15] && all[j] == SecondRoomNumbers[j - 15];
        RoomNumberAt(i - 15);
        RoomNumberAt(j - 15);
        PositionOrder(i - 15, j - 15);
      } else {
        assert all[i] == MainRoomNumbers[i] && all[j] == SecondRoomNumbers[j - 15];
        RoomNumberAt(i);
        RoomNumberAt(j - 15);
      }
    }
  }

  /** Later positions of a numbering list get larger floor-and-door parts. */
  lemma PositionOrder(i: nat, j: nat)
    requires i < j < 15
    ensures 10 * FloorOf(i) + i % 5 < 10 * FloorOf(j) + j % 5
  {
    if i / 5 < j / 5 {
      assert 10 * (i / 5) + 10 <= 10 * (j / 5);
    }
  }

  /** The building and fixture columns of the two seeding loops. */
  function SeedRooms(mainId: int, secondId: int): seq<Room>
  {
    RoomRows(MainRoomNumbers, mainId, "Samsung", "Ceiling Fan", "Nest V3")
      + RoomRows(SecondRoomNumbers, secondId, "LG", "Tower Fan", "Honeywell T6")
  }

  /** Thirty rows: the Main Building's fifteen with their fixtures first, then the Second Building's. */
  lemma SeedRoomsShape(mainId: int, secondId: int)
    ensures |SeedRooms(mainId, secondId)| == 30
    ensures forall i :: 0 <= i < 15 ==>
              SeedRooms(mainId, secondId)[i] == RoomRow(i, MainRoomNumbers[i], mainId, "Samsung", "Ceiling Fan", "Nest V3")
    ensures forall i :: 15 <= i < 30 ==>
              SeedRooms(mainId, secondId)[i] == RoomRow(i - 15, SecondRoomNumbers[i - 15], secondId, "LG", "Tower Fan", "Honeywell T6")
  {
  }

  /** The thirty seeded rooms have distinct text room numbers, so they fit the primary key. */
  lemma SeedRoomsHaveDistinctNumbers(mainId: int, secondId: int)
    ensures RoomNumbersUnique(SeedRooms(mainId, secondId))
  {
    var rows := SeedRooms(mainId, secondId);
    var all := MainRoomNumbers + SecondRoomNumbers;
    SeedNumbersDistinct();
    forall i | 0 <= i < 30 ensures rows[i].roomNumber == NatToString(all[i]) {
      if i >= 15 { assert rows[i] == RoomRows(SecondRoomNumbers, secondId, "LG", "Tower Fan", "Honeywell T6")[i - 15]; }
    }
    forall i, j | 0 <= i < j < 30 ensures rows[i].roomNumber != rows[j].roomNumber {
      NatToStringInjective(all[i], all[j]);
    }
  }

  /** Every seeded room lies on floor 1 to 3, shown as its middle digit, and floor 3 is all executive rooms. */
  lemma SeedRoomsFollowFloorRule(mainId: int, secondId: int, i: int)
    requires 0 <= i < 30
    ensures var r := SeedRooms(mainId, secondId)[i];
            && r.floor.Some? && 1 <= r.floor.value <= 3
            && |r.roomNumber| == 3 && r.roomNumber[1] == DigitChar(r.floor.value)
            && (r.floor.value == 3 ==> r.roomType == Some("Bedroom Executive"))
  {
    SeedRoomsShape(mainId, secondId);
    if i < 15 {
      FloorIsMiddleDigit(i);
    } else {
      FloorIsMiddleDigit(i - 15);
    }
  }

  // ---------------------------------------------------------------------------
  // Insert-or-ignore seeding
  // ---------------------------------------------------------------------------

  /** `INSERT OR IGNORE INTO rooms` for one row: the primary key `room_number` decides. */
  function InsertOrIgnoreRoom(rooms: seq<Room>, row: Room): (r: seq<Room>)
    ensures RoomNumberInUse(rooms, row.roomNumber) ==> r == rooms
    ensures !RoomNumberInUse(rooms, row.roomNumber) ==> r == rooms + [row]
  {
    if RoomNumberInUse(rooms, row.roomNumber) then rooms else rooms + [row]
  }

  /** `executemany` of the room insert: the rows are offered one after the other. */
  function InsertOrIgnoreRooms(rooms: seq<Room>, rows: seq<Room>): (r: seq<Room>)
    ensures |rooms| <= |r| && r[..|rooms|] == rooms
    ensures RoomNumbersUnique(rooms) ==> RoomNumbersUnique(r)
    decreases |rows|
  {
    if rows == [] then rooms
    else
      var next := InsertOrIgnoreRoom(rooms, rows[0]);
      RoomInsertKeepsKeys(rooms, rows[0]);
      var r := InsertOrIgnoreRooms(next, rows[1..]);
      assert r[..|rooms|] == next[..|rooms|];
      r
  }

  /** After the statement every offered room number is in the table. */
  lemma {:induction false} InsertOrIgnoreRoomsCovers(rooms: seq<Room>, rows: seq<Room>)
    ensures forall i :: 0 <= i < |rows| ==> RoomNumberInUse(InsertOrIgnoreRooms(rooms, rows), rows[i].roomNumber)
    decreases |rows|
  {
    if rows != [] {
      var next := InsertOrIgnoreRoom(rooms, rows[0]);
      var r := InsertOrIgnoreRooms(next, rows[1..]);
      RoomInsertKeepsKeys(rooms, rows[0]);
      InsertOrIgnoreRoomsCovers(next, rows[1..]);
      RoomInUseGrows(next, r);
      forall i | 1 <= i < |rows| ensures RoomNumberInUse(r, rows[i].roomNumber) {
        assert rows[i] == rows[1..][i - 1];
      }
    }
  }

  /** When every offered room number is already taken, the statement changes nothing. */
  lemma {:induction false} InsertOrIgnoreRoomsPresent(rooms: seq<Room>, rows: seq<Room>)
    requires forall i :: 0 <= i < |rows| ==> RoomNumberInUse(rooms, rows[i].roomNumber)
    ensures InsertOrIgnoreRooms(rooms, rows) == rooms
    decreases |rows|
  {
    if rows != [] {
      assert InsertOrIgnoreRoom(rooms, rows[0]) == rooms;
      forall i | 0 <= i < |rows[1..]| ensures RoomNumberInUse(rooms, rows[1..][i].roomNumber) {
        assert rows[1..][i] == rows[i + 1];
      }
      InsertOrIgnoreRoomsPresent(rooms, rows[1..]);
    }
  }

  lemma RoomInsertKeepsKeys(rooms: seq<Room>, row: Room)
    ensures RoomNumbersUnique(rooms) ==> RoomNumbersUnique(InsertOrIgnoreRoom(rooms, row))
    ensures RoomNumberInUse(InsertOrIgnoreRoom(rooms, row), row.roomNumber)
  {
    var r := InsertOrIgnoreRoom(rooms, row);
    assert r[|r| - 1].roomNumber == row.roomNumber || RoomNumberInUse(rooms, row.roomNumber);
  }

  /** A room number in use stays in use in any extension of the table. */
  lemma RoomInUseGrows(rooms: seq<Room>, r: seq<Room>)
    requires |rooms| <= |r| && r[..|rooms|] == rooms
    ensures forall n :: RoomNumberInUse(rooms, n) ==> RoomNumberInUse(r, n)
  {
    forall n | RoomNumberInUse(rooms, n) ensures RoomNumberInUse(r, n) {
      var i :| 0 <= i < |rooms| && rooms[i].roomNumber == n;
      assert r[i] == rooms[i];
    }
  }

  /** A building fixture: name, Wi-Fi SSID, Wi-Fi password, restaurant. */
  type BuildingFixture = (string, string, string, string)

  const BuildingFixtures: seq<BuildingFixture> := [
    ("Main Building", "CanyonWifi", "LobXeen", "Island Cafe"),
    ("Second Building", "CoveWifi", "PatRoox", "Island Cafe")
  ]

  /**
   * `executemany` of the building insert-or-ignore. Every offered row uses up one id,
   * whether it is inserted or skipped.
   */
  function InsertOrIgnoreBuildings(bs: seq<Building>, last: int, rows: seq<BuildingFixture>): (r: (seq<Building>, int))
    ensures |bs| <= |r.0| && r.0[..|bs|] == bs && r.1 == last + |rows|
    ensures BuildingKeysValid(bs, last) ==> BuildingKeysValid(r.0, r.1)
    ensures forall i :: 0 <= i < |rows| ==> BuildingNameInUse(r.0, rows[i].0)
    ensures (forall i :: 0 <= i < |rows| ==> BuildingNameInUse(bs, rows[i].0)) ==> r.0 == bs
    decreases |rows|
  {
    if rows == [] then (bs, last)
    else
      var (name, ssid, pwd, restaurant) := rows[0];
      var next := DbManager.InsertOrIgnoreBuilding(bs, last, name, Some(ssid), Some(pwd), Some(restaurant));
      DbManager.InsertOrIgnoreBuildingKeepsKeys(bs, last, name, Some(ssid), Some(pwd), Some(restaurant));
      BuildingInUseGrows(bs, next.0);
      var r := InsertOrIgnoreBuildings(next.0, next.1, rows[1..]);
      BuildingInUseGrows(next.0, r.0);
      assert forall i :: 1 <= i < |rows| ==> rows[i] == rows[1..][i - 1];
      r
  }

  lemma BuildingInUseGrows(bs: seq<Building>, r: seq<Building>)
    requires |bs| <= |r| && r[..|bs|] == bs
    ensures forall n :: BuildingNameInUse(bs, n) ==> BuildingNameInUse(r, n)
  {
    forall n | BuildingNameInUse(bs, n) ensures BuildingNameInUse(r, n) {
      var i :| 0 <= i < |bs| && bs[i].name == n;
      assert r[i] == bs[i];
    }
  }

  /** `SELECT building_id FROM buildings WHERE name = ?` followed by `fetchone()`. */
  function BuildingIdByName(bs: seq<Building>, name: string): (r: Option<int>)
    ensures r.None? <==> !BuildingNameInUse(bs, name)
    ensures r.Some? ==> exists i :: 0 <= i < |bs| && bs[i].name == name && bs[i].id == r.value
  {
    match First(bs, (b: Building) => b.name == name)
    case None => None
    case Some(b) => Some(b.id)
  }

  /**
   * The building and room part of a seed run: insert-or-ignore the two buildings,
   * look their ids up by name, and insert-or-ignore the thirty generated rooms.
   */
  function SeedTables(t: Tables): (r: Tables)
    ensures r.residents == t.residents && r.wings == t.wings && r.amenities == t.amenities
    ensures r.pools == t.pools && r.waterSports == t.waterSports && r.menu == t.menu
    ensures t.Valid() ==> r.Valid()
  {
    var (bs, last) := InsertOrIgnoreBuildings(t.buildings, t.buildingSeq, BuildingFixtures);
    assert BuildingFixtures[0].0 == "Main Building" && BuildingFixtures[1].0 == "Second Building";
    var mainId := BuildingIdByName(bs, "Main Building").value;
    var secondId := BuildingIdByName(bs, "Second Building").value;
    t.(buildings := bs, buildingSeq := last,
       rooms := InsertOrIgnoreRooms(t.rooms, SeedRooms(mainId, secondId)))
  }

  /** The buildings section of the script: insert-or-ignore both fixtures. */
  method InsertBuildingFixtures(db: Database)
    requires db.Valid()
    modifies db
    ensures db.Valid()
    ensures var (bs, last) := InsertOrIgnoreBuildings(old(db.buildings), old(db.buildingSeq), BuildingFixtures);
            db.Snapshot() == old(db.Snapshot()).(buildings := bs, buildingSeq := last)
    ensures BuildingNameInUse(db.buildings, "Main Building") && BuildingNameInUse(db.buildings, "Second Building")
  {
    var (bs, last) := InsertOrIgnoreBuildings(db.buildings, db.buildingSeq, BuildingFixtures);
    assert BuildingFixtures[0].0 == "Main Building" && BuildingFixtures[1].0 == "Second Building";
    db.buildings, db.buildingSeq := bs, last;
  }

  /** The rooms section: build both room lists for the looked-up building ids and insert-or-ignore them. */
  method InsertGeneratedRooms(db: Database, mainId: int, secondId: int)
    requires db.Valid()
    modifies db
    ensures db.Valid()
    ensures db.Snapshot() == old(db.Snapshot()).(rooms := InsertOrIgnoreRooms(old(db.rooms), SeedRooms(mainId, secondId)))
  {
    var rows := BuildSeedRooms(mainId, secondId);
    db.rooms := InsertOrIgnoreRooms(db.rooms, rows);
  }

  /** The two loops, Main Building first: `main_rooms + second_rooms`. */
  method BuildSeedRooms(mainId: int, secondId: int) returns (rows: seq<Room>)
    ensures rows == SeedRooms(mainId, secondId)
  {
    var mainRooms := BuildRoomRows(MainRoomNumbers, mainId, "Samsung", "Ceiling Fan", "Nest V3");
    var secondRooms := BuildRoomRows(SecondRoomNumbers, secondId, "LG", "Tower Fan", "Honeywell T6");
    rows := mainRooms + secondRooms;
  }

  /** Running the seed script's building and room part against `db`. */
  method SeedBuildingsAndRooms(db: Database)
    requires db.Valid()
    modifies db
    ensures db.Valid()
    ensures db.Snapshot() == SeedTables(old(db.Snapshot()))
  {
    InsertBuildingFixtures(db);
    ghost var bs, last := db.buildings, db.buildingSeq;
    var mainId := BuildingIdByName(db.buildings, "Main Building").value;
    var secondId := BuildingIdByName(db.buildings, "Second Building").value;
    InsertGeneratedRooms(db, mainId, secondId);
    SeedTablesSteps(old(db.Snapshot()), bs, last, mainId, secondId, db.rooms);
  }

  /** `SeedTables` spelled out step by step, as the script runs it. */
  lemma SeedTablesSteps(t: Tables, bs: seq<Building>, last: int, mainId: int, secondId: int, rooms: seq<Room>)
    requires (bs, last) == InsertOrIgnoreBuildings(t.buildings, t.buildingSeq, BuildingFixtures)
    requires BuildingIdByName(bs, "Main Building") == Some(mainId)
    requires BuildingIdByName(bs, "Second Building") == Some(secondId)
    requires rooms == InsertOrIgnoreRooms(t.rooms, SeedRooms(mainId, secondId))
    ensures SeedTables(t) == t.(buildings := bs, buildingSeq := last, rooms := rooms)
    ensures t.Valid() ==> t.(buildings := bs, buildingSeq := last, rooms := rooms).Valid()
  {
  }

  /**
   * Re-running the seed leaves every table as the first run left it; only the buildings
   * sequence moves on, by the two ids the skipped fixture rows use up.
   */
  lemma SeedTablesIdempotent(t: Tables)
    ensures SeedTables(SeedTables(t)) == SeedTables(t).(buildingSeq := SeedTables(t).buildingSeq + 2)
  {
    SeedTablesCovers(t);
    SeedTablesRerun(SeedTables(t));
  }

  /** Both fixture names are taken and all thirty generated room numbers are in use. */
  predicate SeededState(t: Tables)
  {
    && InsertOrIgnoreBuildings(t.buildings, t.buildingSeq, BuildingFixtures) == (t.buildings, t.buildingSeq + 2)
    && BuildingIdByName(t.buildings, "Main Building").Some?
    && BuildingIdByName(t.buildings, "Second Building").Some?
    && var rows := SeedRooms(BuildingIdByName(t.buildings, "Main Building").value,
                             BuildingIdByName(t.buildings, "Second Building").value);
       forall i :: 0 <= i < |rows| ==> RoomNumberInUse(t.rooms, rows[i].roomNumber)
  }

  /** After a run both fixtures and all thirty generated room numbers are in place. */
  lemma SeedTablesCovers(t: Tables)
    ensures SeededState(SeedTables(t))
  {
    var (bs, last) := InsertOrIgnoreBuildings(t.buildings, t.buildingSeq, BuildingFixtures);
    assert BuildingFixtures[0].0 == "Main Building" && BuildingFixtures[1].0 == "Second Building";
    var mainId := BuildingIdByName(bs, "Main Building").value;
    var secondId := BuildingIdByName(bs, "Second Building").value;
    var rooms := InsertOrIgnoreRooms(t.rooms, SeedRooms(mainId, secondId));
    var t1 := t.(buildings := bs, buildingSeq := last, rooms := rooms);
    assert SeededState(t1) by {
      BuildingFixturesIdempotent(t.buildings, t.buildingSeq);
      InsertOrIgnoreRoomsCovers(t.rooms, SeedRooms(mainId, secondId));
    }
    SeedTablesSteps(t, bs, last, mainId, secondId, rooms);
  }

  /** A run over tables that already hold both fixtures and all thirty room numbers changes only the sequence. */
  lemma SeedTablesRerun(t: Tables)
    requires SeededState(t)
    ensures SeedTables(t) == t.(buildingSeq := t.buildingSeq + 2)
  {
    var mainId := BuildingIdByName(t.buildings, "Main Building").value;
    var secondId := BuildingIdByName(t.buildings, "Second Building").value;
    InsertOrIgnoreRoomsPresent(t.rooms, SeedRooms(mainId, secondId));
    SeedTablesSteps(t, t.buildings, t.buildingSeq + 2, mainId, secondId, t.rooms);
  }

  /** Offering the two fixtures again keeps the rows and uses up two more ids. */
  lemma BuildingFixturesIdempotent(bs: seq<Building>, last: int)
    ensures var (bs1, last1) := InsertOrIgnoreBuildings(bs, last, BuildingFixtures);
            InsertOrIgnoreBuildings(bs1, last1, BuildingFixtures) == (bs1, last1 + 2)
  {
    assert BuildingFixtures[0].0 == "Main Building" && BuildingFixtures[1].0 == "Second Building";
  }

  /** On an empty table the two fixtures become buildings 1 and 2, in order. */
  lemma SeedBuildingsOnEmpty()
    ensures InsertOrIgnoreBuildings([], 0, BuildingFixtures)
            == ([Building(1, "Main Building", Some("CanyonWifi"), Some("LobXeen"), Some("Island Cafe")),
                 Building(2, "Second Building", Some("CoveWifi"), Some("PatRoox"), Some("Island Cafe"))], 2)
  {
    var b0 := Building(1, "Main Building", Some("CanyonWifi"), Some("LobXeen"), Some("Island Cafe"));
    var b1 := Building(2, "Second Building", Some("CoveWifi"), Some("PatRoox"), Some("Island Cafe"));
    var rest := BuildingFixtures[1..];
    assert rest == [BuildingFixtures[1]] && rest[1..] == [];
    var r1 := DbManager.InsertOrIgnoreBuilding([], 0, "Main Building", Some("CanyonWifi"), Some("LobXeen"), Some("Island Cafe"));
    assert !BuildingNameInUse([], "Main Building");
    assert |r1.0| == 1 && r1.0[0] == b0 && r1.1 == 1;
    assert r1.0 == [b0];
    var r2 := DbManager.InsertOrIgnoreBuilding([b0], 1, "Second Building", Some("CoveWifi"), Some("PatRoox"), Some("Island Cafe"));
    assert "Main Building"[0] != "Second Building"[0];
    assert !BuildingNameInUse([b0], "Second Building");
    assert |r2.0| == 2 && r2.0[0] == b0 && r2.0[1] == b1 && r2.1 == 2;
    assert r2.0 == [b0, b1];
    assert InsertOrIgnoreBuildings([b0, b1], 2, rest[1..]) == ([b0, b1], 2);
    assert InsertOrIgnoreBuildings([b0], 1, rest) == ([b0, b1], 2);
  }

  /** With no buildings and no rooms yet, the seed creates buildings 1 and 2 and exactly the thirty generated rooms. */
  lemma SeedEmptyDatabase(t: Tables)
    requires t.buildings == [] && t.buildingSeq == 0 && t.rooms == []
    ensures var r := SeedTables(t);
            && |r.buildings| == 2
            && r.buildings[0] == Building(1, "Main Building", Some("CanyonWifi"), Some("LobXeen"), Some("Island Cafe"))
            && r.buildings[1] == Building(2, "Second Building", Some("CoveWifi"), Some("PatRoox"), Some("Island Cafe"))
            && r.buildingSeq == 2
            && r.rooms == SeedRooms(1, 2)
  {
    var b0 := Building(1, "Main Building", Some("CanyonWifi"), Some("LobXeen"), Some("Island Cafe"));
    var b1 := Building(2, "Second Building", Some("CoveWifi"), Some("PatRoox"), Some("Island Cafe"));
    SeedBuildingsOnEmpty();
    assert BuildingIdByName([b0, b1], "Main Building") == Some(1);
    assert BuildingIdByName([b0, b1], "Second Building") == Some(2) by {
      FirstOfUnique([b0, b1], (b: Building) => b.name == "Second Building", 1);
    }
    SeedRoomsOnEmpty(1, 2);
    SeedTablesSteps(t, [b0, b1], 2, 1, 2, SeedRooms(1, 2));
  }

  /** Into an empty `rooms` table the thirty generated rows all go in, in order. */
  lemma SeedRoomsOnEmpty(mainId: int, secondId: int)
    ensures InsertOrIgnoreRooms([], SeedRooms(mainId, secondId)) == SeedRooms(mainId, secondId)
  {
    SeedRoomsHaveDistinctNumbers(mainId, secondId);
    InsertOrIgnoreFreshRooms([], SeedRooms(mainId, secondId));
    assert [] + SeedRooms(mainId, secondId) == SeedRooms(mainId, secondId);
  }

  /** Offering rows with distinct numbers, none in use, appends them all in order. */
  lemma {:induction false} InsertOrIgnoreFreshRooms(rooms: seq<Room>, rows: seq<Room>)
    requires RoomNumbersUnique(rows)
    requires forall i :: 0 <= i < |rows| ==> !RoomNumberInUse(rooms, rows[i].roomNumber)
    ensures InsertOrIgnoreRooms(rooms, rows) == rooms + rows
    decreases |rows|
  {
    if rows != [] {
      var next := rooms + [rows[0]];
      var tail := rows[1..];
      assert InsertOrIgnoreRoom(rooms, rows[0]) == next;
      forall i | 0 <= i < |tail| ensures !RoomNumberInUse(next, tail[i].roomNumber) {
        assert tail[i] == rows[i + 1];
        FreshAfterAppend(rooms, rows[0], rows[i + 1].roomNumber);
      }
      UniqueTail(rows);
      calc {
        InsertOrIgnoreRooms(rooms, rows);
        InsertOrIgnoreRooms(next, tail);
        { InsertOrIgnoreFreshRooms(next, tail); }
        next + tail;
        { assert rows == [rows[0]] + tail; }
        rooms + rows;
      }
    }
  }

  /** A number free in `rooms` and different from the appended row's stays free. */
  lemma FreshAfterAppend(rooms: seq<Room>, row: Room, n: string)
    requires !RoomNumberInUse(rooms, n) && row.roomNumber != n
    ensures !RoomNumberInUse(rooms + [row], n)
  {
    var next := rooms + [row];
    forall m | 0 <= m < |next| ensures next[m].roomNumber != n {
      if m < |rooms| { assert next[m] == rooms[m]; }
    }
  }

  /** Dropping the first row keeps the numbers distinct. */
  lemma UniqueTail(rows: seq<Room>)
    requires rows != [] && RoomNumbersUnique(rows)
    ensures RoomNumbersUnique(rows[1..])
  {
    var tail := rows[1..];
    forall i, j | 0 <= i < j < |tail| ensures tail[i].roomNumber != tail[j].roomNumber {
      assert tail[i] == rows[i + 1] && tail[j] == rows[j + 1];
    }
  }
}
