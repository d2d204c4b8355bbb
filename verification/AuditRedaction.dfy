/** Credential redaction of audit payloads, src/extensions/audit-redaction.ts: a payload is an object graph, the
    result a tree. */
module AuditRedaction {
  import opened Wrappers

  // ---- payloads ----

  type Address = nat

  datatype Value =
    | Null
    | Undefined
    | Bool(b: bool)
    | Num(n: real)
    | Text(s: string)
    | BigInt(i: int)
    | Func
    | At(address: Address)

  datatype Entry = Entry(key: string, value: Value)

  /** `Err` lists its own enumerable properties; `cause` is `Undefined` when there is none. */
  datatype Node =
    | Bytes(length: nat)
    | Err(name: Value, message: Value, cause: Value, props: List<Entry>)
    | Arr(items: List<Value>)
    | Obj(entries: List<Entry>)

  type Heap = Address -> Node

  /** What a redaction returns. */
  datatype Out =
    | ONull
    | OUndefined
    | OBool(b: bool)
    | ONum(n: real)
    | OText(s: string)
    | OArr(items: List<Out>)
    | OObj(fields: List<OField>)

  datatype OField = OField(key: string, value: Out)

  // ---- patterns ----

  const REDACTED := "[REDACTED]"
  const CIRCULAR := "[Circular]"

  /** Whether any of the value patterns occurs in a string. */
  type Patterns = string -> bool

  const SENSITIVE_NAMES: seq<string> :=
    ["authorization", "x-api-key", "openai-organization", "openai-project", "cookie", "set-cookie",
     "proxy-authorization"]

  const SENSITIVE_PARTS: seq<string> := ["secret", "token", "password", "credential", "api_key", "private_key"]

  function LowerChar(c: char): char { if 'A' <= c <= 'Z' then c - 'A' + 'a' else c }

  function Lower(s: string): (r: string)
    ensures |r| == |s|
  {
    if s == [] then [] else [LowerChar(s[0])] + Lower(s[1..])
  }

  predicate Contains(s: string, part: string) { part <= s || (s != [] && Contains(s[1..], part)) }

  predicate IsSensitiveKey(key: string) {
    Lower(key) in SENSITIVE_NAMES || exists part :: part in SENSITIVE_PARTS && Contains(Lower(key), part)
  }

  function NatDigits(n: nat): string {
    if n < 10 then [('0' as int + n) as char] else NatDigits(n / 10) + [('0' as int + n % 10) as char]
  }

  function Digits(i: int): string { if i < 0 then "-" + NatDigits(-i) else NatDigits(i) }

  function BinaryMarker(length: nat): string { "[binary " + NatDigits(length) + "B]" }

  /** None of the texts the redactor itself writes looks like a credential. */
  ghost predicate MarkersPass(p: Patterns) {
    && !p(REDACTED) && !p(CIRCULAR)
    && (forall n: nat :: !p(BinaryMarker(n)))
    && forall i: int :: !p(Digits(i))
  }

  // ---- the walk ----

  datatype Step = Key(key: string) | Index(i: nat)

  type Path = seq<Step>

  /** `k in errObj` also sees what every object inherits. */
  const INHERITED: set<string> :=
    {"constructor", "hasOwnProperty", "isPrototypeOf", "propertyIsEnumerable", "toLocaleString", "toString",
     "valueOf", "__proto__", "__defineGetter__", "__defineSetter__", "__lookupGetter__", "__lookupSetter__"}

  /** The own properties of an Error that the plain copy does not have yet. */
  function OtherProps(props: List<Entry>, taken: set<string>): List<Entry> {
    match props
    case Nil => Nil
    case Cons(e, rest) =>
      if e.key in taken || e.key in INHERITED then OtherProps(rest, taken)
      else Cons(e, OtherProps(rest, taken + {e.key}))
  }

  /** The plain object an Error is re-wrapped into. */
  function ErrorEntries(e: Node): List<Entry>
    requires e.Err?
  {
    var tail :=
      if e.cause == Undefined then OtherProps(e.props, {"name", "message"})
      else Cons(Entry("cause", e.cause), OtherProps(e.props, {"name", "message", "cause"}));
    Cons(Entry("name", e.name), Cons(Entry("message", e.message), tail))
  }

  datatype Walked<T> = Walked(out: T, fields: seq<Path>, visited: set<Address>)

  /** `walk` with room for `depth` nested calls; `None` is the stack running out. */
  function Walk(h: Heap, p: Patterns, v: Value, path: Path, visited: set<Address>, depth: nat): Option<Walked<Out>>
    decreases depth, 0
  {
    if depth == 0 then None
    else match v
      case Null => Some(Walked(ONull, [], visited))
      case Undefined => Some(Walked(OUndefined, [], visited))
      case Bool(b) => Some(Walked(OBool(b), [], visited))
      case Num(n) => Some(Walked(ONum(n), [], visited))
      case Text(s) => Some(if p(s) then Walked(OText(REDACTED), [path], visited) else Walked(OText(s), [], visited))
      case BigInt(i) => Some(Walked(OText(Digits(i)), [], visited))
      case Func => Some(Walked(OUndefined, [], visited))
      case At(a) =>
        match h(a) {
          case Bytes(length) => Some(Walked(OText(BinaryMarker(length)), [], visited))
          case Err(_, _, _, _) =>
            // The plain copy is a new object, so the visited check never finds it.
            if depth == 1 then None else AsObject(WalkEntries(h, p, ErrorEntries(h(a)), path, visited, depth - 2))
          case Arr(items) =>
            if a in visited then Some(Walked(OText(CIRCULAR), [], visited))
            else AsArray(WalkItems(h, p, items, 0, path, visited + {a}, depth - 1))
          case Obj(entries) =>
            if a in visited then Some(Walked(OText(CIRCULAR), [], visited))
            else AsObject(WalkEntries(h, p, entries, path, visited + {a}, depth - 1))
        }
  }

  function AsArray(w: Option<Walked<List<Out>>>): Option<Walked<Out>> {
    if w.None? then None else Some(Walked(OArr(w.value.out), w.value.fields, w.value.visited))
  }

  function AsObject(w: Option<Walked<List<OField>>>): Option<Walked<Out>> {
    if w.None? then None else Some(Walked(OObj(w.value.out), w.value.fields, w.value.visited))
  }

  function WalkItems(h: Heap, p: Patterns, items: List<Value>, i: nat, path: Path, visited: set<Address>, depth: nat)
    : Option<Walked<List<Out>>>
    decreases depth, 2, items
  {
    match items
    case Nil => Some(Walked(Nil, [], visited))
    case Cons(v, rest) =>
      var w := Walk(h, p, v, path + [Index(i)], visited, depth);
      if w.None? then None
      else
        var ws := WalkItems(h, p, rest, i + 1, path, w.value.visited, depth);
        if ws.None? then None
        else Some(Walked(Cons(w.value.out, ws.value.out), w.value.fields + ws.value.fields, ws.value.visited))
  }

  function WalkEntries(h: Heap, p: Patterns, entries: List<Entry>, path: Path, visited: set<Address>, depth: nat)
    : Option<Walked<List<OField>>>
    decreases depth, 2, entries
  {
    match entries
    case Nil => Some(Walked(Nil, [], visited))
    case Cons(e, rest) =>
      var w := WalkEntry(h, p, e, path + [Key(e.key)], visited, depth);
      if w.None? then None
      else
        var ws := WalkEntries(h, p, rest, path, w.value.visited, depth);
        if ws.None? then None
        else
          Some(Walked(Cons(OField(e.key, w.value.out), ws.value.out), w.value.fields + ws.value.fields,
                      ws.value.visited))
  }

  /** A sensitive key hides whatever is under it, except nothing. */
  function WalkEntry(h: Heap, p: Patterns, e: Entry, path: Path, visited: set<Address>, depth: nat): Option<Walked<Out>>
    decreases depth, 1
  {
    if !IsSensitiveKey(e.key) then Walk(h, p, e.value, path, visited, depth)
    else if e.value == Null then Some(Walked(ONull, [], visited))
    else if e.value == Undefined then Some(Walked(OUndefined, [], visited))
    else Some(Walked(OText(REDACTED), [path], visited))
  }

  // ---- nothing secret comes out ----

  /** No text matches a value pattern, and a sensitive key holds the marker or nothing. */
  predicate Clean(p: Patterns, o: Out) {
    match o
    case OText(s) => !p(s)
    case OArr(items) => CleanItems(p, items)
    case OObj(fields) => CleanFields(p, fields)
    case _ => true
  }

  predicate CleanItems(p: Patterns, items: List<Out>) {
    match items case Nil => true case Cons(o, rest) => Clean(p, o) && CleanItems(p, rest)
  }

  predicate CleanFields(p: Patterns, fields: List<OField>) {
    match fields
    case Nil => true
    case Cons(f, rest) =>
      && Clean(p, f.value)
      && (IsSensitiveKey(f.key) ==> f.value in {ONull, OUndefined, OText(REDACTED)})
      && CleanFields(p, rest)
  }

  /** Whatever the payload, a redaction that returns is clean. */
  lemma {:induction false} WalkIsClean(h: Heap, p: Patterns, v: Value, path: Path, visited: set<Address>, depth: nat)
    requires MarkersPass(p)
    ensures var w := Walk(h, p, v, path, visited, depth); w.Some? ==> Clean(p, w.value.out)
    decreases depth, 0
  {
    hide IsSensitiveKey, Digits, BinaryMarker;
    if depth > 0 && v.At? {
      match h(v.address) {
        case Bytes(length) =>
        case Err(_, _, _, _) =>
          if depth > 1 { EntriesAreClean(h, p, ErrorEntries(h(v.address)), path, visited, depth - 2); }
        case Arr(items) => ItemsAreClean(h, p, items, 0, path, visited + {v.address}, depth - 1);
        case Obj(entries) => EntriesAreClean(h, p, entries, path, visited + {v.address}, depth - 1);
      }
    }
  }

  lemma {:induction false} ItemsAreClean(
    h: Heap, p: Patterns, items: List<Value>, i: nat, path: Path, visited: set<Address>, depth: nat)
    requires MarkersPass(p)
    ensures var w := WalkItems(h, p, items, i, path, visited, depth); w.Some? ==> CleanItems(p, w.value.out)
    decreases depth, 2, items
  {
    if items.Cons? {
      WalkIsClean(h, p, items.head, path + [Index(i)], visited, depth);
      var w := Walk(h, p, items.head, path + [Index(i)], visited, depth);
      if w.Some? { ItemsAreClean(h, p, items.tail, i + 1, path, w.value.visited, depth); }
    }
  }

  lemma {:induction false} EntriesAreClean(
    h: Heap, p: Patterns, entries: List<Entry>, path: Path, visited: set<Address>, depth: nat)
    requires MarkersPass(p)
    ensures var w := WalkEntries(h, p, entries, path, visited, depth); w.Some? ==> CleanFields(p, w.value.out)
    decreases depth, 2, entries
  {
    hide IsSensitiveKey;
    if entries.Cons? {
      var e := entries.head;
      WalkIsClean(h, p, e.value, path + [Key(e.key)], visited, depth);
      var w := WalkEntry(h, p, e, path + [Key(e.key)], visited, depth);
      if w.Some? { EntriesAreClean(h, p, entries.tail, path, w.value.visited, depth); }
    }
  }

  // ---- depth only decides whether there is a result ----

  lemma {:induction false} DeeperIsSame(
    h: Heap, p: Patterns, v: Value, path: Path, visited: set<Address>, depth: nat, more: nat)
    requires depth <= more && Walk(h, p, v, path, visited, depth).Some?
    ensures Walk(h, p, v, path, visited, more) == Walk(h, p, v, path, visited, depth)
    decreases depth, 0
  {
    hide IsSensitiveKey, Digits, BinaryMarker, WalkItems, WalkEntries, ErrorEntries;
    if v.At? {
      match h(v.address) {
        case Bytes(length) =>
        case Err(_, _, _, _) => DeeperEntries(h, p, ErrorEntries(h(v.address)), path, visited, depth - 2, more - 2);
        case Arr(items) =>
          if v.address !in visited { DeeperItems(h, p, items, 0, path, visited + {v.address}, depth - 1, more - 1); }
        case Obj(entries) =>
          if v.address !in visited { DeeperEntries(h, p, entries, path, visited + {v.address}, depth - 1, more - 1); }
      }
    }
  }

  lemma {:induction false} DeeperItems(
    h: Heap, p: Patterns, items: List<Value>, i: nat, path: Path, visited: set<Address>, depth: nat, more: nat)
    requires depth <= more && WalkItems(h, p, items, i, path, visited, depth).Some?
    ensures WalkItems(h, p, items, i, path, visited, more) == WalkItems(h, p, items, i, path, visited, depth)
    decreases depth, 2, items
  {
    if items.Cons? {
      DeeperIsSame(h, p, items.head, path + [Index(i)], visited, depth, more);
      var w := Walk(h, p, items.head, path + [Index(i)], visited, depth);
      DeeperItems(h, p, items.tail, i + 1, path, w.value.visited, depth, more);
    }
  }

  lemma {:induction false} DeeperEntries(
    h: Heap, p: Patterns, entries: List<Entry>, path: Path, visited: set<Address>, depth: nat, more: nat)
    requires depth <= more && WalkEntries(h, p, entries, path, visited, depth).Some?
    ensures WalkEntries(h, p, entries, path, visited, more) == WalkEntries(h, p, entries, path, visited, depth)
    decreases depth, 2, entries
  {
    hide IsSensitiveKey;
    if entries.Cons? {
      var e := entries.head;
      if !IsSensitiveKey(e.key) { DeeperIsSame(h, p, e.value, path + [Key(e.key)], visited, depth, more); }
      var w := WalkEntry(h, p, e, path + [Key(e.key)], visited, depth);
      DeeperEntries(h, p, entries.tail, path, w.value.visited, depth, more);
    }
  }

  // ---- redacting a redacted payload ----

  /** `v` is a fresh copy of the tree `o`, laid out over the addresses from `lo` up to `hi`. */
  ghost predicate Stored(h: Heap, v: Value, o: Out, lo: nat, hi: nat)
    decreases o, 0
  {
    match o
    case ONull => v == Null && lo <= hi
    case OUndefined => v == Undefined && lo <= hi
    case OBool(b) => v == Bool(b) && lo <= hi
    case ONum(n) => v == Num(n) && lo <= hi
    case OText(s) => v == Text(s) && lo <= hi
    case OArr(items) => lo < hi && v == At(lo) && h(lo).Arr? && StoredItems(h, h(lo).items, items, lo + 1, hi)
    case OObj(fields) => lo < hi && v == At(lo) && h(lo).Obj? && StoredFields(h, h(lo).entries, fields, lo + 1, hi)
  }

  ghost predicate StoredItems(h: Heap, vs: List<Value>, os: List<Out>, lo: nat, hi: nat)
    decreases os, 1
  {
    match os
    case Nil => vs.Nil? && lo <= hi
    case Cons(o, rest) =>
      && vs.Cons?
      && exists mid: nat ::
           lo <= mid <= hi && Stored(h, vs.head, o, lo, mid) && StoredItems(h, vs.tail, rest, mid, hi)
  }

  ghost predicate StoredFields(h: Heap, es: List<Entry>, fs: List<OField>, lo: nat, hi: nat)
    decreases fs, 1
  {
    match fs
    case Nil => es.Nil? && lo <= hi
    case Cons(f, rest) =>
      && es.Cons? && es.head.key == f.key
      && exists mid: nat ::
           lo <= mid <= hi && Stored(h, es.head.value, f.value, lo, mid) && StoredFields(h, es.tail, rest, mid, hi)
  }

  /** The nesting of a result. */
  function Height(o: Out): nat
    decreases o, 0
  {
    match o case OArr(items) => 1 + HeightItems(items) case OObj(fields) => 1 + HeightFields(fields) case _ => 0
  }

  function Max(a: nat, b: nat): nat { if a < b then b else a }

  function HeightItems(items: List<Out>): nat
    decreases items, 1
  {
    match items case Nil => 0 case Cons(o, rest) => Max(Height(o), HeightItems(rest))
  }

  function HeightFields(fields: List<OField>): nat
    decreases fields, 1
  {
    match fields case Nil => 0 case Cons(f, rest) => Max(Height(f.value), HeightFields(rest))
  }

  predicate Unvisited(visited: set<Address>, lo: nat, hi: nat) { forall a :: a in visited ==> a < lo || hi <= a }

  /** Redacting a clean tree gives the same tree, with a stack of its own height. */
  lemma {:induction false} CleanIsFixed(
    h: Heap, p: Patterns, v: Value, o: Out, lo: nat, hi: nat, path: Path, visited: set<Address>, depth: nat)
    requires Stored(h, v, o, lo, hi) && Clean(p, o) && Unvisited(visited, lo, hi)
    ensures var w := Walk(h, p, v, path, visited, depth);
            && (Height(o) < depth ==> w.Some?)
            && (w.Some? ==> w.value.out == o && forall a :: a in w.value.visited ==> a in visited || lo <= a < hi)
    decreases depth, 0
  {
    hide IsSensitiveKey, Digits, BinaryMarker, WalkItems, WalkEntries, StoredItems, StoredFields, CleanItems,
         CleanFields;
    if depth > 0 {
      match o {
        case OArr(items) => ItemsAreFixed(h, p, h(lo).items, items, lo + 1, hi, 0, path, visited + {lo}, depth - 1);
        case OObj(fields) => FieldsAreFixed(h, p, h(lo).entries, fields, lo + 1, hi, path, visited + {lo}, depth - 1);
        case _ =>
      }
    }
  }

  lemma {:induction false} ItemsAreFixed(
    h: Heap, p: Patterns, vs: List<Value>, os: List<Out>, lo: nat, hi: nat, i: nat, path: Path, visited: set<Address>,
    depth: nat)
    requires StoredItems(h, vs, os, lo, hi) && CleanItems(p, os) && Unvisited(visited, lo, hi)
    ensures var w := WalkItems(h, p, vs, i, path, visited, depth);
            && (HeightItems(os) < depth || os.Nil? ==> w.Some?)
            && (w.Some? ==> w.value.out == os && forall a :: a in w.value.visited ==> a in visited || lo <= a < hi)
    decreases depth, 2, os
  {
    hide Stored, Clean, Walk;
    if os.Cons? {
      var mid: nat :|
        lo <= mid <= hi && Stored(h, vs.head, os.head, lo, mid) && StoredItems(h, vs.tail, os.tail, mid, hi);
      CleanIsFixed(h, p, vs.head, os.head, lo, mid, path + [Index(i)], visited, depth);
      var w := Walk(h, p, vs.head, path + [Index(i)], visited, depth);
      if w.Some? { ItemsAreFixed(h, p, vs.tail, os.tail, mid, hi, i + 1, path, w.value.visited, depth); }
    }
  }

  lemma {:induction false} FieldsAreFixed(
    h: Heap, p: Patterns, es: List<Entry>, fs: List<OField>, lo: nat, hi: nat, path: Path, visited: set<Address>,
    depth: nat)
    requires StoredFields(h, es, fs, lo, hi) && CleanFields(p, fs) && Unvisited(visited, lo, hi)
    ensures var w := WalkEntries(h, p, es, path, visited, depth);
            && (HeightFields(fs) < depth || fs.Nil? ==> w.Some?)
            && (w.Some? ==> w.value.out == fs && forall a :: a in w.value.visited ==> a in visited || lo <= a < hi)
    decreases depth, 2, fs
  {
    hide Walk, IsSensitiveKey;
    if fs.Cons? {
      var mid: nat :|
        && lo <= mid <= hi
        && Stored(h, es.head.value, fs.head.value, lo, mid)
        && StoredFields(h, es.tail, fs.tail, mid, hi);
      CleanIsFixed(h, p, es.head.value, fs.head.value, lo, mid, path + [Key(es.head.key)], visited, depth);
      var w := WalkEntry(h, p, es.head, path + [Key(es.head.key)], visited, depth);
      if w.Some? { FieldsAreFixed(h, p, es.tail, fs.tail, mid, hi, path, w.value.visited, depth); }
    }
  }

  // ---- every result can be handed back as a payload ----

  datatype Laid<V> = Laid(value: V, next: nat, heap: Heap)

  function Set(h: Heap, a: Address, n: Node): Heap { (b: Address) => if b == a then n else h(b) }

  /** The result as a payload of its own, from address `lo`. */
  function LayOut(h: Heap, o: Out, lo: nat): Laid<Value>
    decreases o, 0
  {
    match o
    case ONull => Laid(Null, lo, h)
    case OUndefined => Laid(Undefined, lo, h)
    case OBool(b) => Laid(Bool(b), lo, h)
    case ONum(n) => Laid(Num(n), lo, h)
    case OText(s) => Laid(Text(s), lo, h)
    case OArr(items) => var l := LayOutItems(h, items, lo + 1); Laid(At(lo), l.next, Set(l.heap, lo, Arr(l.value)))
    case OObj(fields) => var l := LayOutFields(h, fields, lo + 1); Laid(At(lo), l.next, Set(l.heap, lo, Obj(l.value)))
  }

  function LayOutItems(h: Heap, items: List<Out>, lo: nat): Laid<List<Value>>
    decreases items, 1
  {
    match items
    case Nil => Laid(Nil, lo, h)
    case Cons(o, rest) =>
      var l := LayOut(h, o, lo);
      var ls := LayOutItems(l.heap, rest, l.next);
      Laid(Cons(l.value, ls.value), ls.next, ls.heap)
  }

  function LayOutFields(h: Heap, fields: List<OField>, lo: nat): Laid<List<Entry>>
    decreases fields, 1
  {
    match fields
    case Nil => Laid(Nil, lo, h)
    case Cons(f, rest) =>
      var l := LayOut(h, f.value, lo);
      var ls := LayOutFields(l.heap, rest, l.next);
      Laid(Cons(Entry(f.key, l.value), ls.value), ls.next, ls.heap)
  }

  predicate SameFrom(h: Heap, h': Heap, lo: nat, hi: nat) { forall a: Address :: lo <= a < hi ==> h'(a) == h(a) }

  lemma {:induction false} StoredFrame(h: Heap, h': Heap, v: Value, o: Out, lo: nat, hi: nat)
    requires Stored(h, v, o, lo, hi) && SameFrom(h, h', lo, hi)
    ensures Stored(h', v, o, lo, hi) && lo <= hi
    decreases o, 0
  {
    match o {
      case OArr(items) => StoredItemsFrame(h, h', h(lo).items, items, lo + 1, hi);
      case OObj(fields) => StoredFieldsFrame(h, h', h(lo).entries, fields, lo + 1, hi);
      case _ =>
    }
  }

  lemma {:induction false} StoredItemsFrame(h: Heap, h': Heap, vs: List<Value>, os: List<Out>, lo: nat, hi: nat)
    requires StoredItems(h, vs, os, lo, hi) && SameFrom(h, h', lo, hi)
    ensures StoredItems(h', vs, os, lo, hi) && lo <= hi
    decreases os, 1
  {
    hide Stored;
    if os.Cons? {
      var mid: nat :|
        lo <= mid <= hi && Stored(h, vs.head, os.head, lo, mid) && StoredItems(h, vs.tail, os.tail, mid, hi);
      StoredFrame(h, h', vs.head, os.head, lo, mid);
      StoredItemsFrame(h, h', vs.tail, os.tail, mid, hi);
    }
  }

  lemma {:induction false} StoredFieldsFrame(h: Heap, h': Heap, es: List<Entry>, fs: List<OField>, lo: nat, hi: nat)
    requires StoredFields(h, es, fs, lo, hi) && SameFrom(h, h', lo, hi)
    ensures StoredFields(h', es, fs, lo, hi) && lo <= hi
    decreases fs, 1
  {
    hide Stored;
    if fs.Cons? {
      var mid: nat :|
        && lo <= mid <= hi
        && Stored(h, es.head.value, fs.head.value, lo, mid)
        && StoredFields(h, es.tail, fs.tail, mid, hi);
      StoredFrame(h, h', es.head.value, fs.head.value, lo, mid);
      StoredFieldsFrame(h, h', es.tail, fs.tail, mid, hi);
    }
  }

  lemma {:induction false} LayOutStores(h: Heap, o: Out, lo: nat)
    ensures var l := LayOut(h, o, lo);
            lo <= l.next && Stored(l.heap, l.value, o, lo, l.next) && forall a: Address :: a < lo ==> l.heap(a) == h(a)
    decreases o, 0
  {
    match o {
      case OArr(items) =>
        LayOutItemsStores(h, items, lo + 1);
        var l := LayOutItems(h, items, lo + 1);
        StoredItemsFrame(l.heap, Set(l.heap, lo, Arr(l.value)), l.value, items, lo + 1, l.next);
      case OObj(fields) =>
        LayOutFieldsStores(h, fields, lo + 1);
        var l := LayOutFields(h, fields, lo + 1);
        StoredFieldsFrame(l.heap, Set(l.heap, lo, Obj(l.value)), l.value, fields, lo + 1, l.next);
      case _ =>
    }
  }

  lemma {:induction false} LayOutItemsStores(h: Heap, items: List<Out>, lo: nat)
    ensures var l := LayOutItems(h, items, lo);
            && lo <= l.next && StoredItems(l.heap, l.value, items, lo, l.next)
            && forall a: Address :: a < lo ==> l.heap(a) == h(a)
    decreases items, 1
  {
    hide Stored;
    if items.Cons? {
      LayOutStores(h, items.head, lo);
      var l := LayOut(h, items.head, lo);
      LayOutItemsStores(l.heap, items.tail, l.next);
      StoredFrame(l.heap, LayOutItems(l.heap, items.tail, l.next).heap, l.value, items.head, lo, l.next);
    }
  }

  lemma {:induction false} LayOutFieldsStores(h: Heap, fields: List<OField>, lo: nat)
    ensures var l := LayOutFields(h, fields, lo);
            && lo <= l.next && StoredFields(l.heap, l.value, fields, lo, l.next)
            && forall a: Address :: a < lo ==> l.heap(a) == h(a)
    decreases fields, 1
  {
    hide Stored;
    if fields.Cons? {
      LayOutStores(h, fields.head.value, lo);
      var l := LayOut(h, fields.head.value, lo);
      LayOutFieldsStores(l.heap, fields.tail, l.next);
      StoredFrame(l.heap, LayOutFields(l.heap, fields.tail, l.next).heap, l.value, fields.head.value, lo, l.next);
    }
  }

  // ---- the whole redaction ----

  datatype Options = Options(maxBytes: Option<nat>, truncate: bool)

  datatype Redaction =
    | Redacted(out: Out, fields: seq<Path>)
    | Truncated(preview: string, originalBytes: nat, fields: seq<Path>, sha256: string)
    | Failed

  const DEFAULT_MAX_BYTES := 8192
  const TRUNCATION_KEEP_BYTES := 4096

  /** Serialising, byte length and hashing are not looked into. */
  datatype Codec = Codec(text: Out -> string, bytes: string -> nat, sha256: string -> string)

  /** Running out of stack is caught. */
  function RedactForAudit(h: Heap, p: Patterns, payload: Value, opts: Options, c: Codec, depth: nat): Redaction {
    var w := Walk(h, p, payload, [], {}, depth);
    if w.None? then Failed
    else if !opts.truncate then Redacted(w.value.out, w.value.fields)
    else
      var serialized := c.text(w.value.out);
      var max := if opts.maxBytes.Some? then opts.maxBytes.value else DEFAULT_MAX_BYTES;
      if c.bytes(serialized) <= max then Redacted(w.value.out, w.value.fields)
      else
        Truncated(if |serialized| <= TRUNCATION_KEEP_BYTES then serialized else serialized[..TRUNCATION_KEEP_BYTES],
                  c.bytes(serialized), w.value.fields, c.sha256(serialized))
  }

  /** Redacting what a redaction returned, laid out afresh, returns it unchanged; and it is clean. */
  lemma RedactionIdempotent(
    h: Heap, p: Patterns, payload: Value, opts: Options, c: Codec, depth: nat, lo: nat, depth': nat)
    requires MarkersPass(p) && RedactForAudit(h, p, payload, opts, c, depth).Redacted?
    ensures var out := RedactForAudit(h, p, payload, opts, c, depth).out;
            var again := LayOut(h, out, lo);
            && Clean(p, out)
            && (Height(out) < depth' ==>
                 RedactForAudit(again.heap, p, again.value, opts, c, depth').Redacted?
                 && RedactForAudit(again.heap, p, again.value, opts, c, depth').out == out)
  {
    hide Walk, Clean, Stored, LayOut, Height;
    WalkIsClean(h, p, payload, [], {}, depth);
    var out := RedactForAudit(h, p, payload, opts, c, depth).out;
    var again := LayOut(h, out, lo);
    LayOutStores(h, out, lo);
    CleanIsFixed(again.heap, p, again.value, out, lo, again.next, [], {}, depth');
  }
}
