/** The canonical form of a manifest's tool list, and the lockfile check built on it, in
    src/extensions/bundled-lock.ts. */
module ManifestLock {
  import opened Wrappers

  /** A loaded manifest's values. Object members are listed in insertion order. */
  datatype Json =
    | Null
    | Bool(b: bool)
    | Num(n: real)
    | Str(s: string)
    | Arr(items: List<Json>)
    | Obj(fields: Fields)
    | Undefined
    | Function(name: string)

  datatype Member = Member(key: string, value: Json)

  type Fields = List<Member>

  /** Values that objects drop: `undefined` and functions. */
  predicate Absent(v: Json) { v.Undefined? || v.Function? }

  // ---- objects ----

  predicate HasKey(fs: Fields, k: string) {
    match fs case Nil => false case Cons(m, rest) => m.key == k || HasKey(rest, k)
  }

  /** The member's value, if the member is kept. */
  function Get(fs: Fields, k: string): (r: Option<Json>)
    ensures r.Some? ==> HasKey(fs, k) && !Absent(r.value)
  {
    match fs
    case Nil => None
    case Cons(m, rest) => if m.key == k then (if Absent(m.value) then None else Some(m.value)) else Get(rest, k)
  }

  predicate UniqueKeys(fs: Fields) {
    match fs case Nil => true case Cons(m, rest) => !HasKey(rest, m.key) && UniqueKeys(rest)
  }

  /** Every object in the value has each key once. */
  predicate Proper(v: Json) {
    match v
    case Arr(items) => ProperItems(items)
    case Obj(fs) => UniqueKeys(fs) && ProperFields(fs)
    case _ => true
  }

  predicate ProperItems(items: List<Json>) {
    match items case Nil => true case Cons(v, rest) => Proper(v) && ProperItems(rest)
  }

  predicate ProperFields(fs: Fields) {
    match fs case Nil => true case Cons(m, rest) => Proper(m.value) && ProperFields(rest)
  }

  // ---- the default sort order of strings ----

  predicate Less(a: string, b: string) {
    b != [] && (a == [] || a[0] < b[0] || (a[0] == b[0] && Less(a[1..], b[1..])))
  }

  lemma {:induction false} LessTotal(a: string, b: string)
    ensures Less(a, b) || a == b || Less(b, a)
    ensures !(Less(a, b) && Less(b, a)) && !Less(a, a)
    decreases |a|
  {
    if a != [] && b != [] {
      LessTotal(a[1..], b[1..]);
      LessTotal2(a[1..]);
      assert a == [a[0]] + a[1..] && b == [b[0]] + b[1..];
    }
    LessTotal2(a);
  }

  lemma {:induction false} LessTotal2(a: string)
    ensures !Less(a, a)
    decreases |a|
  {
    if a != [] { LessTotal2(a[1..]); }
  }

  lemma {:induction false} LessTransitive(a: string, b: string, c: string)
    requires Less(a, b) && Less(b, c)
    ensures Less(a, c)
    decreases |a|
  {
    if a != [] && a[0] == b[0] == c[0] { LessTransitive(a[1..], b[1..], c[1..]); }
  }

  // ---- canonical values ----

  function CanonValue(v: Json): Json {
    match v
    case Arr(items) => Arr(CanonItems(items))
    case Obj(fs) => Obj(CanonFields(fs))
    case _ => v
  }

  function CanonItems(items: List<Json>): List<Json> {
    match items case Nil => Nil case Cons(v, rest) => Cons(CanonValue(v), CanonItems(rest))
  }

  /** Keys in order, absent members dropped, values canonical. */
  function CanonFields(fs: Fields): Fields {
    match fs
    case Nil => Nil
    case Cons(m, rest) =>
      if Absent(m.value) then CanonFields(rest) else Insert(Member(m.key, CanonValue(m.value)), CanonFields(rest))
  }

  function Insert(m: Member, fs: Fields): Fields {
    match fs
    case Nil => Cons(m, Nil)
    case Cons(f, rest) => if Less(m.key, f.key) then Cons(m, fs) else Cons(f, Insert(m, rest))
  }

  predicate Above(fs: Fields, k: string) {
    match fs case Nil => true case Cons(m, rest) => Less(k, m.key) && Above(rest, k)
  }

  predicate Sorted(fs: Fields) {
    match fs case Nil => true case Cons(m, rest) => Above(rest, m.key) && Sorted(rest) && !Absent(m.value)
  }

  lemma {:induction false} AboveIs(fs: Fields, k: string, j: string)
    requires Above(fs, k) && (HasKey(fs, j) || j == k)
    ensures HasKey(fs, j) ==> Less(k, j)
    ensures !HasKey(fs, k)
  {
    match fs {
      case Nil =>
      case Cons(m, rest) =>
        LessTotal(k, m.key);
        if HasKey(rest, j) || j == k { AboveIs(rest, k, j); } else { AboveIs(rest, k, k); }
    }
  }

  lemma {:induction false} AboveLower(fs: Fields, k: string, j: string)
    requires Above(fs, k) && Less(j, k)
    ensures Above(fs, j)
  {
    match fs {
      case Nil =>
      case Cons(m, rest) => LessTransitive(j, k, m.key); AboveLower(rest, k, j);
    }
  }

  lemma {:induction false} InsertSorted(m: Member, fs: Fields)
    requires Sorted(fs) && !HasKey(fs, m.key) && !Absent(m.value)
    ensures Sorted(Insert(m, fs))
    ensures forall k :: HasKey(Insert(m, fs), k) <==> k == m.key || HasKey(fs, k)
    ensures forall k :: Get(Insert(m, fs), k) == if k == m.key then Some(m.value) else Get(fs, k)
    ensures forall k :: Above(fs, k) && Less(k, m.key) ==> Above(Insert(m, fs), k)
  {
    match fs {
      case Nil =>
      case Cons(f, rest) =>
        LessTotal(m.key, f.key);
        if Less(m.key, f.key) {
          AboveLower(rest, f.key, m.key);
        } else {
          InsertSorted(m, rest);
        }
    }
  }

  lemma HeadVisible(fs: Fields)
    requires Sorted(fs) && fs.Cons?
    ensures Get(fs, fs.head.key) == Some(fs.head.value)
  {
  }

  /** Sorted members are determined by what lookup sees. */
  lemma {:induction false} SortedByLookup(fs: Fields, gs: Fields)
    requires Sorted(fs) && Sorted(gs) && forall k :: Get(fs, k) == Get(gs, k)
    ensures fs == gs
  {
    match fs {
      case Nil =>
        if gs.Cons? { HeadVisible(gs); }
      case Cons(m, rest) =>
        assert Get(gs, m.key) == Some(m.value);
        assert Get(fs, gs.head.key) == Some(gs.head.value);
        LessTotal(m.key, gs.head.key);
        if m.key != gs.head.key {
          AboveIs(gs.tail, gs.head.key, m.key);
          AboveIs(rest, m.key, gs.head.key);
        }
        AboveIs(rest, m.key, m.key);
        AboveIs(gs.tail, m.key, m.key);
        forall k ensures Get(rest, k) == Get(gs.tail, k) {
          assert Get(fs, k) == Get(gs, k);
          NoKeyNoValue(rest, m.key);
          NoKeyNoValue(gs.tail, m.key);
        }
        SortedByLookup(rest, gs.tail);
    }
  }

  lemma {:induction false} NoKeyNoValue(fs: Fields, k: string)
    requires !HasKey(fs, k)
    ensures Get(fs, k).None?
  {
    if fs.Cons? { NoKeyNoValue(fs.tail, k); }
  }

  lemma {:induction false} CanonFieldsIs(fs: Fields)
    requires UniqueKeys(fs)
    ensures Sorted(CanonFields(fs))
    ensures forall k ::
              Get(CanonFields(fs), k) == (if Get(fs, k).None? then None else Some(CanonValue(Get(fs, k).value)))
    ensures forall k :: HasKey(CanonFields(fs), k) ==> HasKey(fs, k)
  {
    match fs {
      case Nil =>
      case Cons(m, rest) =>
        CanonFieldsIs(rest);
        NoKeyNoValue(rest, m.key);
        CanonAbsent(m.value);
        if !Absent(m.value) {
          InsertSorted(Member(m.key, CanonValue(m.value)), CanonFields(rest));
        }
    }
  }

  lemma CanonAbsent(v: Json)
    ensures Absent(CanonValue(v)) <==> Absent(v)
  {
  }

  // ---- what serialising sees ----

  /** `JSON.stringify` drops absent members and writes absent items as null; otherwise it is one-to-one. */
  function Image(v: Json): Json {
    match v
    case Arr(items) => Arr(ImageItems(items))
    case Obj(fs) => Obj(ImageFields(fs))
    case _ => v
  }

  function ImageItems(items: List<Json>): List<Json> {
    match items case Nil => Nil case Cons(v, rest) => Cons(if Absent(v) then Null else Image(v), ImageItems(rest))
  }

  function ImageFields(fs: Fields): Fields {
    match fs
    case Nil => Nil
    case Cons(m, rest) =>
      if Absent(m.value) then ImageFields(rest) else Cons(Member(m.key, Image(m.value)), ImageFields(rest))
  }

  lemma {:induction false} ImageFieldsIs(fs: Fields)
    requires Sorted(fs)
    ensures Sorted(ImageFields(fs))
    ensures forall k :: Get(ImageFields(fs), k) == (if Get(fs, k).None? then None else Some(Image(Get(fs, k).value)))
    ensures forall k :: Above(fs, k) ==> Above(ImageFields(fs), k)
  {
    if fs.Cons? { ImageFieldsIs(fs.tail); }
  }

  /** A value as the hash sees it. */
  function Key(v: Json): Json { Image(CanonValue(v)) }

  lemma KeyFields(fs: Fields)
    requires UniqueKeys(fs)
    ensures Key(Obj(fs)) == Obj(ImageFields(CanonFields(fs))) && Sorted(ImageFields(CanonFields(fs)))
    ensures forall k ::
              Get(ImageFields(CanonFields(fs)), k) == (if Get(fs, k).None? then None else Some(Key(Get(fs, k).value)))
  {
    CanonFieldsIs(fs);
    ImageFieldsIs(CanonFields(fs));
  }

  // ---- when two values mean the same ----

  /** Equal up to the order of object members at every depth; array items are matched by position. */
  ghost predicate Same(a: Json, b: Json)
    decreases a, 0
  {
    match a
    case Arr(items) => b.Arr? && SameItems(items, b.items)
    case Obj(fs) => b.Obj? && SameFields(fs, b.fields)
    case _ => a == b
  }

  ghost predicate SameItems(xs: List<Json>, ys: List<Json>)
    decreases xs, 0
  {
    match xs
    case Nil => ys.Nil?
    case Cons(x, rest) =>
      && ys.Cons?
      && (if Absent(x) || x.Null? then Absent(ys.head) || ys.head.Null? else Same(x, ys.head))
      && SameItems(rest, ys.tail)
  }

  ghost predicate SameFields(fs: Fields, gs: Fields)
    decreases fs, 1
  {
    Covered(fs, gs) && forall k :: Get(gs, k).Some? ==> Get(fs, k).Some?
  }

  ghost predicate Covered(fs: Fields, gs: Fields)
    decreases fs, 0
  {
    match fs
    case Nil => true
    case Cons(m, rest) =>
      (Absent(m.value) || (Get(gs, m.key).Some? && Same(m.value, Get(gs, m.key).value))) && Covered(rest, gs)
  }

  lemma {:induction false} GetProper(fs: Fields, k: string)
    requires ProperFields(fs)
    ensures Get(fs, k).Some? ==> Proper(Get(fs, k).value)
  {
    if fs.Cons? { GetProper(fs.tail, k); }
  }

  ghost predicate KeysAgree(fs: Fields, gs: Fields, k: string) {
    Get(fs, k).Some? ==> Get(gs, k).Some? && Key(Get(fs, k).value) == Key(Get(gs, k).value)
  }

  lemma {:induction false} CoveredIff(fs: Fields, gs: Fields)
    requires UniqueKeys(fs) && ProperFields(fs) && ProperFields(gs)
    ensures Covered(fs, gs) <==> forall k :: KeysAgree(fs, gs, k)
    decreases fs, 0
  {
    hide Key;
    match fs {
      case Nil =>
      case Cons(m, rest) =>
        CoveredIff(rest, gs);
        NoKeyNoValue(rest, m.key);
        GetProper(gs, m.key);
        if Get(gs, m.key).Some? { SameIff(m.value, Get(gs, m.key).value); }
        forall k | k != m.key ensures KeysAgree(fs, gs, k) <==> KeysAgree(rest, gs, k) {}
        assert KeysAgree(rest, gs, m.key);
        assert KeysAgree(fs, gs, m.key) <==>
          Absent(m.value) || (Get(gs, m.key).Some? && Same(m.value, Get(gs, m.key).value));
    }
  }

  lemma {:induction false} ItemsIff(xs: List<Json>, ys: List<Json>)
    requires ProperItems(xs) && ProperItems(ys)
    ensures SameItems(xs, ys) <==> ImageItems(CanonItems(xs)) == ImageItems(CanonItems(ys))
    decreases xs, 0
  {
    if xs.Cons? && ys.Cons? {
      ItemsIff(xs.tail, ys.tail);
      CanonAbsent(xs.head);
      CanonAbsent(ys.head);
      SameIff(xs.head, ys.head);
    }
  }

  /** Values have one canonical serialisation exactly when they are the same. */
  lemma {:induction false} SameIff(a: Json, b: Json)
    requires Proper(a) && Proper(b)
    ensures Same(a, b) <==> Key(a) == Key(b)
    decreases a, 0
  {
    match a {
      case Arr(items) => if b.Arr? { ItemsIff(items, b.items); }
      case Obj(fs) => if b.Obj? { FieldsIff(fs, b.fields); }
      case _ =>
    }
  }

  lemma {:induction false} FieldsIff(fs: Fields, gs: Fields)
    requires UniqueKeys(fs) && ProperFields(fs) && UniqueKeys(gs) && ProperFields(gs)
    ensures SameFields(fs, gs) <==> Key(Obj(fs)) == Key(Obj(gs))
    decreases fs, 1
  {
    CoveredIff(fs, gs);
    KeyFields(fs);
    KeyFields(gs);
    var nf, ng := ImageFields(CanonFields(fs)), ImageFields(CanonFields(gs));
    if SameFields(fs, gs) {
      forall k ensures Get(nf, k) == Get(ng, k) {
        assert KeysAgree(fs, gs, k);
      }
      SortedByLookup(nf, ng);
    }
    if nf == ng {
      forall k ensures KeysAgree(fs, gs, k) && (Get(gs, k).Some? ==> Get(fs, k).Some?) {
        assert Get(nf, k) == Get(ng, k);
      }
    }
  }

  // ---- canonical form is reached in one step ----

  predicate Canonical(v: Json) {
    match v
    case Arr(items) => CanonicalItems(items)
    case Obj(fs) => Sorted(fs) && CanonicalMembers(fs)
    case _ => true
  }

  predicate CanonicalItems(items: List<Json>) {
    match items case Nil => true case Cons(v, rest) => Canonical(v) && CanonicalItems(rest)
  }

  predicate CanonicalMembers(fs: Fields) {
    match fs case Nil => true case Cons(m, rest) => Canonical(m.value) && CanonicalMembers(rest)
  }

  lemma {:induction false} InsertCanonical(m: Member, fs: Fields)
    requires CanonicalMembers(fs) && Canonical(m.value)
    ensures CanonicalMembers(Insert(m, fs))
  {
    if fs.Cons? { InsertCanonical(m, fs.tail); }
  }

  lemma {:induction false} CanonMakesCanonical(v: Json)
    requires Proper(v)
    ensures Canonical(CanonValue(v))
    decreases v, 0
  {
    match v {
      case Arr(items) => CanonItemsCanonical(items);
      case Obj(fs) => CanonFieldsIs(fs); CanonFieldsCanonical(fs);
      case _ =>
    }
  }

  lemma {:induction false} CanonItemsCanonical(items: List<Json>)
    requires ProperItems(items)
    ensures CanonicalItems(CanonItems(items))
    decreases items, 0
  {
    if items.Cons? {
      CanonMakesCanonical(items.head);
      CanonItemsCanonical(items.tail);
    }
  }

  lemma {:induction false} CanonFieldsCanonical(fs: Fields)
    requires ProperFields(fs)
    ensures CanonicalMembers(CanonFields(fs))
    decreases fs, 0
  {
    if fs.Cons? {
      CanonFieldsCanonical(fs.tail);
      CanonMakesCanonical(fs.head.value);
      InsertCanonical(Member(fs.head.key, CanonValue(fs.head.value)), CanonFields(fs.tail));
    }
  }

  lemma InsertFirst(m: Member, fs: Fields)
    requires Above(fs, m.key)
    ensures Insert(m, fs) == Cons(m, fs)
  {
  }

  lemma {:induction false} CanonicalIsFixed(v: Json)
    requires Canonical(v)
    ensures CanonValue(v) == v
    decreases v, 0
  {
    match v {
      case Arr(items) => ItemsFixed(items);
      case Obj(fs) => FieldsFixed(fs);
      case _ =>
    }
  }

  lemma {:induction false} ItemsFixed(items: List<Json>)
    requires CanonicalItems(items)
    ensures CanonItems(items) == items
    decreases items, 0
  {
    if items.Cons? {
      CanonicalIsFixed(items.head);
      ItemsFixed(items.tail);
    }
  }

  lemma {:induction false} FieldsFixed(fs: Fields)
    requires Sorted(fs) && CanonicalMembers(fs)
    ensures CanonFields(fs) == fs
    decreases fs, 0
  {
    if fs.Cons? {
      FieldsFixed(fs.tail);
      CanonicalIsFixed(fs.head.value);
      InsertFirst(fs.head, fs.tail);
    }
  }

  /** Canonicalising twice changes nothing. */
  lemma CanonIdempotent(v: Json)
    requires Proper(v)
    ensures CanonValue(CanonValue(v)) == CanonValue(v)
  {
    CanonMakesCanonical(v);
    CanonicalIsFixed(CanonValue(v));
  }

  lemma {:induction false} InsertProper(m: Member, fs: Fields)
    requires ProperFields(fs) && Proper(m.value)
    ensures ProperFields(Insert(m, fs))
  {
    if fs.Cons? { InsertProper(m, fs.tail); }
  }

  lemma {:induction false} SortedUnique(fs: Fields)
    requires Sorted(fs)
    ensures UniqueKeys(fs)
  {
    if fs.Cons? {
      AboveIs(fs.tail, fs.head.key, fs.head.key);
      SortedUnique(fs.tail);
    }
  }

  lemma {:induction false} CanonKeepsProper(v: Json)
    requires Proper(v)
    ensures Proper(CanonValue(v))
    decreases v, 0
  {
    match v {
      case Arr(items) => CanonItemsProper(items);
      case Obj(fs) => CanonFieldsIs(fs); SortedUnique(CanonFields(fs)); CanonFieldsProper(fs);
      case _ =>
    }
  }

  lemma {:induction false} CanonItemsProper(items: List<Json>)
    requires ProperItems(items)
    ensures ProperItems(CanonItems(items))
    decreases items, 0
  {
    if items.Cons? {
      CanonKeepsProper(items.head);
      CanonItemsProper(items.tail);
    }
  }

  lemma {:induction false} CanonFieldsProper(fs: Fields)
    requires ProperFields(fs)
    ensures ProperFields(CanonFields(fs))
    decreases fs, 0
  {
    if fs.Cons? {
      CanonFieldsProper(fs.tail);
      CanonKeepsProper(fs.head.value);
      InsertProper(Member(fs.head.key, CanonValue(fs.head.value)), CanonFields(fs.tail));
    }
  }
}
