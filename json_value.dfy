/**
 * Parsed JSON values as the tree model receives and produces them (Python `dict`, `list`
 * and scalars), item keys, and the type tags that tree items record.
 */
module JsonValue {

  /** The key of a tree item: an ordinal under an array, a name under an object. */
  datatype Key = Ordinal(n: int) | Name(s: string)

  /** A parsed JSON value. Floats and every other scalar are kept opaque (JOther). */
  datatype Json =
    | JNull
    | JBool(b: bool)
    | JInt(i: int)
    | JStr(s: string)
    | JOther(token: nat)
    | JArray(items: seq<Json>)
    | JObject(members: seq<Member>)

  /** One entry of a Python `dict`, in insertion order. */
  datatype Member = Member(name: Key, value: Json)

  /**
   * The Python type object stored in an item's `type` field. NoneType is `type(None)`, which
   * `load` records for a null; NoType is `None` itself, the initial value of the field and the
   * one `setData` stores for the text "null".
   */
  datatype Tag = DictType | ListType | StrType | IntType | BoolType | NoneType | OtherType | NoType

  /** `type(value)`. */
  function TypeOf(v: Json): Tag {
    match v
    case JNull => NoneType
    case JBool(_) => BoolType
    case JInt(_) => IntType
    case JStr(_) => StrType
    case JOther(_) => OtherType
    case JArray(_) => ListType
    case JObject(_) => DictType
  }

  predicate IsContainer(v: Json) {
    v.JArray? || v.JObject?
  }

  /** Number of direct elements of a container (0 for a scalar). */
  function Size(v: Json): nat {
    match v
    case JArray(items) => |items|
    case JObject(ms) => |ms|
    case _ => 0
  }

  /** The i-th element of a container, in iteration order. */
  function ElementAt(v: Json, i: nat): Json
    requires i < Size(v)
  {
    if v.JArray? then v.items[i] else v.members[i].value
  }

  /** The key `load` gives the i-th element: its index in an array, its name in an object. */
  function KeyAt(v: Json, i: nat): Key
    requires i < Size(v)
  {
    if v.JArray? then Ordinal(i) else v.members[i].name
  }

  /** No two entries of a dict share a key. */
  ghost predicate UniqueNames(ms: seq<Member>) {
    forall i, j | 0 <= i < j < |ms| :: ms[i].name != ms[j].name
  }

  /** Every dict inside the value has unique keys, as every Python dict does. */
  ghost predicate WellFormed(v: Json)
    decreases v
  {
    match v
    case JArray(items) => forall i | 0 <= i < |items| :: WellFormed(items[i])
    case JObject(ms) => UniqueNames(ms) && forall i | 0 <= i < |ms| :: WellFormed(ms[i].value)
    case _ => true
  }

  /**
   * `document[k] = v` on a Python dict: an existing key keeps its position and takes the new
   * value; a new key is appended at the end.
   */
  function SetItem(ms: seq<Member>, k: Key, v: Json): (r: seq<Member>)
    ensures |r| == |ms| || |r| == |ms| + 1
  {
    if ms == [] then [Member(k, v)]
    else if ms[0].name == k then [Member(k, v)] + ms[1..]
    else [ms[0]] + SetItem(ms[1..], k, v)
  }

  /** Assigning a key the dict does not have appends the entry. */
  lemma {:induction false} SetItemAppends(ms: seq<Member>, k: Key, v: Json)
    requires forall i | 0 <= i < |ms| :: ms[i].name != k
    ensures SetItem(ms, k, v) == ms + [Member(k, v)]
  {
    if ms != [] {
      SetItemAppends(ms[1..], k, v);
      assert ms == [ms[0]] + ms[1..];
    }
  }

  /** Assigning a key the dict has replaces that entry's value in place. */
  lemma {:induction false} SetItemOverwrites(ms: seq<Member>, k: Key, v: Json, i: nat)
    requires UniqueNames(ms) && i < |ms| && ms[i].name == k
    ensures SetItem(ms, k, v) == ms[i := Member(k, v)]
  {
    if i > 0 {
      assert ms[0].name != k;
      SetItemOverwrites(ms[1..], k, v, i - 1);
      assert ms[i := Member(k, v)] == [ms[0]] + ms[1..][i - 1 := Member(k, v)];
    }
  }

  /** The keys after an assignment are the old keys plus the assigned one. */
  lemma {:induction false} SetItemNames(ms: seq<Member>, k: Key, v: Json)
    ensures forall n :: n in Names(SetItem(ms, k, v)) <==> n in Names(ms) || n == k
  {
    if ms != [] && ms[0].name != k {
      SetItemNames(ms[1..], k, v);
    }
  }

  /** Assignment keeps the keys of a dict unique. */
  lemma {:induction false} SetItemUnique(ms: seq<Member>, k: Key, v: Json)
    requires UniqueNames(ms)
    ensures UniqueNames(SetItem(ms, k, v))
  {
    if i :| 0 <= i < |ms| && ms[i].name == k {
      SetItemOverwrites(ms, k, v, i);
    } else {
      SetItemAppends(ms, k, v);
    }
  }

  /** The keys of a dict, in order. */
  function Names(ms: seq<Member>): (ns: seq<Key>)
    ensures |ns| == |ms| && forall i | 0 <= i < |ms| :: ns[i] == ms[i].name
  {
    if ms == [] then [] else [ms[0].name] + Names(ms[1..])
  }
}
