/**
 Documents and their values (`Value`, `HakoDoc`), field lookup and dotted paths.
 A Rust `String` is its UTF-8 bytes; a Rust `f64` is its bit pattern.
 */
module Values {
  import opened Bytes

  type Str = seq<byte>

  datatype Value =
    | Null
    | Bool(b: bool)
    | Int(i: i64)
    | Float(bits: u64)
    | String(s: Str)
    | Binary(bytes: seq<byte>)
    | BlobLink(offset: u64, len: u32)
    | Reference(collection: Str, docId: Str)
    | Timestamp(micros: i64)
    | ServerTimestamp
    | Map(fields: seq<Field>)
    | Array(items: seq<Value>)

  datatype Field = Field(key: Str, value: Value)

  datatype HakoDoc = HakoDoc(fields: seq<Field>, time: i64)

  /** Top-level fields stand in strictly ascending key order, as `insert` keeps them. */
  predicate SortedKeys(fields: seq<Field>) {
    forall i, j | 0 <= i < j < |fields| :: CompareBytes(fields[i].key, fields[j].key) == Less
  }

  predicate DistinctKeys(fields: seq<Field>) {
    forall i, j | 0 <= i < j < |fields| :: fields[i].key != fields[j].key
  }

  lemma SortedKeysDistinct(fields: seq<Field>)
    requires SortedKeys(fields)
    ensures DistinctKeys(fields)
  {
    forall i, j | 0 <= i < j < |fields| ensures fields[i].key != fields[j].key {
      CompareBytesOrder(fields[i].key, fields[j].key);
    }
  }

  /** The first field called `key`. */
  function Find(fields: seq<Field>, key: Str): Option<Value> {
    if fields == [] then None
    else if fields[0].key == key then Some(fields[0].value)
    else Find(fields[1..], key)
  }

  lemma {:induction false} FindMember(fields: seq<Field>, key: Str)
    ensures match Find(fields, key)
            case None => forall f | f in fields :: f.key != key
            case Some(v) => Field(key, v) in fields
  {
    if fields != [] && fields[0].key != key {
      FindMember(fields[1..], key);
      assert forall f | f in fields :: f == fields[0] || f in fields[1..];
    }
  }

  lemma {:induction false} FindAt(fields: seq<Field>, i: nat)
    requires i < |fields| && DistinctKeys(fields)
    ensures Find(fields, fields[i].key) == Some(fields[i].value)
  {
    if i > 0 {
      FindAt(fields[1..], i - 1);
    }
  }

  // ---- HakoDoc::get and HakoDoc::insert ----

  /** Where `key` stands, or where it would have to be inserted. */
  datatype Slot = Found(pos: nat) | Gap(pos: nat)

  /** `binary_search_by` over the field keys. */
  method Search(fields: seq<Field>, key: Str) returns (slot: Slot)
    requires SortedKeys(fields)
    ensures slot.pos <= |fields|
    ensures slot.Found? ==> slot.pos < |fields| && fields[slot.pos].key == key
    ensures forall i | 0 <= i < slot.pos :: CompareBytes(fields[i].key, key) == Less
    ensures forall i | slot.pos <= i < |fields| && !(slot.Found? && i == slot.pos) ::
              CompareBytes(key, fields[i].key) == Less
  {
    var lo, hi := 0, |fields|;
    while lo < hi
      invariant 0 <= lo <= hi <= |fields|
      invariant forall i | 0 <= i < lo :: CompareBytes(fields[i].key, key) == Less
      invariant forall i | hi <= i < |fields| :: CompareBytes(key, fields[i].key) == Less
    {
      var mid := (lo + hi) / 2;
      var order := CompareBytes(fields[mid].key, key);
      CompareBytesOrder(fields[mid].key, key);
      forall i | 0 <= i < mid && order != Greater ensures CompareBytes(fields[i].key, key) == Less {
        CompareBytesTransitive(fields[i].key, fields[mid].key, key);
      }
      forall i | mid < i < |fields| && order != Less ensures CompareBytes(key, fields[i].key) == Less {
        CompareBytesTransitive(key, fields[mid].key, fields[i].key);
      }
      match order
      case Less => lo := mid + 1;
      case Greater => hi := mid;
      case Equal => return Found(mid);
    }
    slot := Gap(lo);
  }

  method Get(doc: HakoDoc, key: Str) returns (r: Option<Value>)
    requires SortedKeys(doc.fields)
    ensures r == Find(doc.fields, key)
  {
    var slot := Search(doc.fields, key);
    if slot.Found? {
      SortedKeysDistinct(doc.fields);
      FindAt(doc.fields, slot.pos);
      r := Some(doc.fields[slot.pos].value);
    } else {
      FindMember(doc.fields, key);
      forall i | 0 <= i < |doc.fields| ensures doc.fields[i].key != key {
        CompareBytesOrder(doc.fields[i].key, key);
      }
      r := None;
    }
  }

  /** The fields with `key` set to `value`, in key order. */
  function Put(fields: seq<Field>, key: Str, value: Value): seq<Field> {
    if fields == [] then [Field(key, value)]
    else match CompareBytes(fields[0].key, key)
      case Less => [fields[0]] + Put(fields[1..], key, value)
      case Equal => [Field(key, value)] + fields[1..]
      case Greater => [Field(key, value)] + fields
  }

  lemma {:induction false} PutFind(fields: seq<Field>, key: Str, value: Value, k: Str)
    requires SortedKeys(fields)
    ensures Find(Put(fields, key, value), k) == if k == key then Some(value) else Find(fields, k)
  {
    if fields != [] {
      CompareBytesOrder(fields[0].key, key);
      if CompareBytes(fields[0].key, key) == Less {
        PutFind(fields[1..], key, value, k);
      }
    }
  }

  lemma {:induction false} PutSorted(fields: seq<Field>, key: Str, value: Value)
    requires SortedKeys(fields)
    ensures SortedKeys(Put(fields, key, value))
    ensures forall f | f in Put(fields, key, value) :: f == Field(key, value) || f in fields
  {
    if fields != [] {
      CompareBytesOrder(fields[0].key, key);
      match CompareBytes(fields[0].key, key)
      case Less =>
        PutSorted(fields[1..], key, value);
        var rest := Put(fields[1..], key, value);
        forall j | 0 <= j < |rest| ensures CompareBytes(fields[0].key, rest[j].key) == Less {
          assert rest[j] in rest;
        }
      case Equal =>
      case Greater =>
        forall j | 0 <= j < |fields| ensures CompareBytes(key, fields[j].key) == Less {
          if j > 0 { CompareBytesTransitive(key, fields[0].key, fields[j].key); }
        }
    }
  }

  /** `fields[pos..from]` replaced by `f`. */
  function Splice(fields: seq<Field>, pos: nat, from: nat, f: Field): seq<Field>
    requires pos <= from <= |fields|
  {
    fields[..pos] + [f] + fields[from..]
  }

  lemma SpliceRest(fields: seq<Field>, pos: nat, from: nat, f: Field)
    requires 0 < pos <= from <= |fields|
    ensures Splice(fields, pos, from, f) == [fields[0]] + Splice(fields[1..], pos - 1, from - 1, f)
  {
  }

  lemma {:induction false} PutAtSlot(fields: seq<Field>, pos: nat, from: nat, f: Field)
    requires pos <= from <= |fields|
    requires from == pos || (from == pos + 1 && fields[pos].key == f.key)
    requires forall i | 0 <= i < pos :: CompareBytes(fields[i].key, f.key) == Less
    requires from == pos < |fields| ==> CompareBytes(f.key, fields[pos].key) == Less
    ensures Splice(fields, pos, from, f) == Put(fields, f.key, f.value)
  {
    if pos > 0 {
      SpliceRest(fields, pos, from, f);
      hide Splice;
      PutAtSlot(fields[1..], pos - 1, from - 1, f);
    } else if fields != [] {
      CompareBytesOrder(fields[0].key, f.key);
    }
  }

  method Insert(doc: HakoDoc, key: Str, value: Value) returns (r: HakoDoc)
    requires SortedKeys(doc.fields)
    ensures r == doc.(fields := Put(doc.fields, key, value))
    ensures SortedKeys(r.fields)
  {
    var slot := Search(doc.fields, key);
    var from := if slot.Found? then slot.pos + 1 else slot.pos;
    r := doc.(fields := Splice(doc.fields, slot.pos, from, Field(key, value)));
    PutAtSlot(doc.fields, slot.pos, from, Field(key, value));
    PutSorted(doc.fields, key, value);
  }

  // ---- Dotted paths ----

  const DOT: byte := 0x2E

  /** `path.split('.')`: always at least one segment. */
  function Split(path: Str): (segs: seq<Str>)
    ensures |segs| > 0
  {
    if path == [] then [[]]
    else if path[0] == DOT then [[]] + Split(path[1..])
    else
      var rest := Split(path[1..]);
      [[path[0]] + rest[0]] + rest[1..]
  }

  /** A path without a dot is one segment. */
  lemma {:induction false} SplitWord(k: Str)
    requires 0x2E !in k
    ensures Split(k) == [k]
  {
    if k != [] {
      SplitWord(k[1..]);
      assert k == [k[0]] + k[1..];
    }
  }

  /** The first dot ends the first segment. */
  lemma {:induction false} SplitDot(k: Str, rest: Str)
    requires 0x2E !in k
    ensures Split(k + [0x2E] + rest) == [k] + Split(rest)
  {
    var path := k + [0x2E] + rest;
    if k == [] {
      assert path[1..] == rest;
    } else {
      SplitDot(k[1..], rest);
      assert path[1..] == k[1..] + [0x2E] + rest && path[0] == k[0];
      assert k == [k[0]] + k[1..];
      assert ([k[1..]] + Split(rest))[1..] == Split(rest);
    }
  }

  /** The last dot starts the last segment. */
  lemma {:induction false} SplitEnd(path: Str, name: Str)
    requires 0x2E !in name
    ensures Split(path + [0x2E] + name) == Split(path) + [name]
  {
    var all := path + [0x2E] + name;
    if path == [] {
      assert all[1..] == name;
      SplitWord(name);
    } else {
      SplitEnd(path[1..], name);
      assert all[1..] == path[1..] + [0x2E] + name && all[0] == path[0];
      var rest := Split(path[1..]);
      assert (rest + [name])[1..] == rest[1..] + [name] && (rest + [name])[0] == rest[0];
    }
  }

  /** One map level per segment; anything else is a miss. */
  function Descend(v: Value, segs: seq<Str>): Option<Value>
    decreases segs
  {
    if segs == [] then Some(v)
    else if segs[0] == [] || !v.Map? then None
    else
      var next :- Find(v.fields, segs[0]);
      Descend(next, segs[1..])
  }

  function Lookup(fields: seq<Field>, segs: seq<Str>): Option<Value>
    requires segs != []
  {
    if segs[0] == [] then None
    else
      var top :- Find(fields, segs[0]);
      Descend(top, segs[1..])
  }

  method GetPath(doc: HakoDoc, path: Str) returns (r: Option<Value>)
    requires SortedKeys(doc.fields)
    ensures r == Lookup(doc.fields, Split(path))
  {
    var segs := Split(path);
    if segs[0] == [] {
      return None;
    }
    r := Get(doc, segs[0]);
    var i := 1;
    while i < |segs| && r.Some?
      invariant 1 <= i <= |segs|
      invariant Lookup(doc.fields, segs) == if r.None? then None else Descend(r.value, segs[i..])
    {
      if segs[i] == [] || !r.value.Map? {
        return None;
      }
      r := Find(r.value.fields, segs[i]);
      i := i + 1;
    }
  }
}
