/** The four tables' rows (`users`, `rides`, `bookings`, `vehicul`), column
    for column, without their id column, which `Tables.Row` carries. */
module Schema {
  import opened Options

  /** A stored picture path, kept opaque. */
  type Path = string

  datatype User = User(
    username: string,
    passwordHash: string,
    firstName: string,
    lastName: string,
    station: string,
    email: string,
    phone: string,
    licenseDate: Option<string>,
    picture: Option<Path>)

  datatype Ride = Ride(
    providerId: nat,
    start: string,
    destination: string,
    date: string,
    time: string,
    seats: int)

  datatype Booking = Booking(userId: nat, rideId: nat)

  /** The four picture columns of a vehicle. */
  datatype Slot = Inter1 | Inter2 | Exter1 | Exter2

  /** One value per picture slot. */
  datatype Slots<T> = Slots(inter1: T, inter2: T, exter1: T, exter2: T)
  {
    function At(s: Slot): T
    {
      match s
      case Inter1 => inter1
      case Inter2 => inter2
      case Exter1 => exter1
      case Exter2 => exter2
    }
  }

  datatype Vehicle = Vehicle(
    userId: nat,
    make: string,
    model: string,
    firstRegistration: string,
    pictures: Slots<Option<Path>>)

  /** The Python dict of picture paths the database functions receive,
      keyed by slot name. */
  type PictureDict = map<string, Option<Path>>

  /** The dict key of each slot, and the order the edit form fills them in. */
  function SlotName(s: Slot): string
  {
    match s
    case Inter1 => "inter1"
    case Inter2 => "inter2"
    case Exter1 => "exter1"
    case Exter2 => "exter2"
  }

  const SlotOrder: seq<Slot> := [Inter1, Inter2, Exter1, Exter2]

  /** Distinct slots have distinct dict keys. */
  lemma SlotNameInjective(a: Slot, b: Slot)
    ensures SlotName(a) == SlotName(b) ==> a == b
  {
    if SlotName(a) == SlotName(b) {
      assert SlotName(a)[0] == SlotName(b)[0];
      assert SlotName(a)[5] == SlotName(b)[5];
    }
  }

  lemma SlotOrderCoversSlots(s: Slot)
    ensures s in SlotOrder
  {
  }

  /** `pictures if pictures is not None else {}` followed by `.get(name)` for
      each slot: a missing dict, or a missing key, stores NULL. */
  function PictureColumns(pictures: Option<PictureDict>): (p: Slots<Option<Path>>)
    ensures forall s: Slot ::
      p.At(s) == if pictures.Some? && SlotName(s) in pictures.value then pictures.value[SlotName(s)] else None
  {
    var d := if pictures.Some? then pictures.value else map[];
    var get := (name: string) => if name in d then d[name] else None;
    Slots(get("inter1"), get("inter2"), get("exter1"), get("exter2"))
  }

  /** The picture columns in `SELECT picture_inter1, picture_inter2,
      picture_exter1, picture_exter2` order. */
  function Columns<T>(p: Slots<T>): (r: seq<T>)
    ensures |r| == 4
    ensures forall i :: 0 <= i < 4 ==> r[i] == p.At(SlotOrder[i])
  {
    [p.inter1, p.inter2, p.exter1, p.exter2]
  }

  /** Python truthiness of a stored path: neither NULL nor the empty string. */
  predicate Truthy(p: Option<Path>)
  {
    p.Some? && p.value != ""
  }

  /** The paths a `for path in paths: if path: ...` loop acts on, in order. */
  function TruthyPaths(ps: seq<Option<Path>>): (r: seq<Path>)
    ensures |r| <= |ps|
    ensures forall p :: p in r <==> Some(p) in ps && p != ""
  {
    if ps == [] then []
    else (if Truthy(ps[0]) then [ps[0].value] else []) + TruthyPaths(ps[1..])
  }

  lemma {:induction false} TruthyPathsAppend(ps: seq<Option<Path>>, p: Option<Path>)
    ensures TruthyPaths(ps + [p]) == TruthyPaths(ps) + if Truthy(p) then [p.value] else []
  {
    if ps != [] {
      assert (ps + [p])[1..] == ps[1..] + [p];
      TruthyPathsAppend(ps[1..], p);
    }
  }
}
