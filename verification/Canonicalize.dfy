/** `canonicalizeTool` and `canonicalizeValue` of src/extensions/bundled-lock.ts as they run: sort the keys, then
    fill a fresh object in a loop. Proved equal to the specification in ManifestLock and ToolList. */
module Canonicalize {
  import opened Wrappers
  import opened ManifestLock
  import opened ToolList

  // ---- objects as JavaScript sees them ----

  /** `obj[key]`: `Undefined` for a key that is not there. */
  function Lookup(fs: Fields, k: string): Json {
    match fs case Nil => Undefined case Cons(m, rest) => if m.key == k then m.value else Lookup(rest, k)
  }

  /** `out[key] = value`: replaced in place, or added at the end. */
  function Put(fs: Fields, k: string, v: Json): Fields {
    match fs
    case Nil => Cons(Member(k, v), Nil)
    case Cons(m, rest) => if m.key == k then Cons(Member(k, v), rest) else Cons(m, Put(rest, k, v))
  }

  function Keys(fs: Fields): (r: seq<string>)
    ensures forall k :: k in r <==> HasKey(fs, k)
  {
    match fs case Nil => [] case Cons(m, rest) => [m.key] + Keys(rest)
  }

  // ---- `Array.prototype.sort` on strings ----

  function InsertKey(k: string, ks: seq<string>): seq<string> {
    if ks == [] || !Less(ks[0], k) then [k] + ks else [ks[0]] + InsertKey(k, ks[1..])
  }

  function SortKeys(ks: seq<string>): seq<string> { if ks == [] then [] else InsertKey(ks[0], SortKeys(ks[1..])) }

  predicate Ascending(ks: seq<string>) {
    ks == [] || (Ascending(ks[1..]) && forall k :: k in ks[1..] ==> Less(ks[0], k))
  }

  lemma {:induction false} InsertKeyAscending(k: string, ks: seq<string>)
    requires Ascending(ks) && k !in ks
    ensures Ascending(InsertKey(k, ks)) && forall j :: j in InsertKey(k, ks) <==> j == k || j in ks
  {
    if ks == [] || !Less(ks[0], k) {
      if ks != [] {
        var first := ks[0];
        assert first in ks;
        LessTotal(k, first);
        forall j | j in ks ensures Less(k, j) {
          if j != first {
            assert j in ks[1..];
            LessTransitive(k, first, j);
          }
        }
      }
      assert ([k] + ks)[1..] == ks;
    } else {
      InsertKeyAscending(k, ks[1..]);
      assert ([ks[0]] + InsertKey(k, ks[1..]))[1..] == InsertKey(k, ks[1..]);
    }
  }

  lemma {:induction false} KeysAscending(fs: Fields)
    requires UniqueKeys(fs)
    ensures Ascending(SortKeys(Keys(fs))) && forall k :: k in SortKeys(Keys(fs)) <==> HasKey(fs, k)
  {
    if fs.Cons? {
      KeysAscending(fs.tail);
      assert Keys(fs)[1..] == Keys(fs.tail);
      InsertKeyAscending(fs.head.key, SortKeys(Keys(fs.tail)));
    }
  }

  lemma {:induction false} AscendingAt(ks: seq<string>, i: nat, j: nat)
    requires Ascending(ks) && i < j < |ks|
    ensures Less(ks[i], ks[j])
  {
    if i == 0 { assert ks[1..][j - 1] == ks[j]; } else { AscendingAt(ks[1..], i - 1, j - 1); }
  }

  // ---- filling the fresh object ----

  lemma {:induction false} LookupIsGet(fs: Fields, k: string)
    requires UniqueKeys(fs)
    ensures Get(fs, k) == if Absent(Lookup(fs, k)) then None else Some(Lookup(fs, k))
    ensures ProperFields(fs) ==> Proper(Lookup(fs, k))
  {
    if fs.Cons? {
      LookupIsGet(fs.tail, k);
    }
  }

  predicate Below(fs: Fields, k: string) {
    match fs case Nil => true case Cons(m, rest) => Less(m.key, k) && Below(rest, k)
  }

  lemma {:induction false} PutLast(fs: Fields, k: string, v: Json)
    requires Sorted(fs) && Below(fs, k) && !Absent(v)
    ensures Sorted(Put(fs, k, v))
    ensures forall j :: Get(Put(fs, k, v), j) == if j == k then Some(v) else Get(fs, j)
    ensures forall j :: Above(fs, j) && Less(j, k) ==> Above(Put(fs, k, v), j)
    ensures forall j :: Below(fs, j) && Less(k, j) ==> Below(Put(fs, k, v), j)
  {
    if fs.Cons? {
      LessTotal(fs.head.key, k);
      PutLast(fs.tail, k, v);
    }
  }

  lemma {:induction false} BelowHigher(fs: Fields, k: string, j: string)
    requires Below(fs, k) && Less(k, j)
    ensures Below(fs, j)
  {
    if fs.Cons? {
      LessTransitive(fs.head.key, k, j);
      BelowHigher(fs.tail, k, j);
    }
  }

  /** `out` holds the canonical members of `fs` for the first `i` sorted keys. */
  ghost predicate Filled(fs: Fields, ks: seq<string>, i: nat, out: Fields)
    requires i <= |ks|
  {
    && Sorted(out)
    && (forall j :: i <= j < |ks| ==> Below(out, ks[j]))
    && forall k :: Get(out, k) == if k in ks[..i] then Get(CanonFields(fs), k) else None
  }

  lemma FilledNext(fs: Fields, ks: seq<string>, i: nat, out: Fields)
    requires UniqueKeys(fs) && ks == SortKeys(Keys(fs)) && i < |ks| && Filled(fs, ks, i, out)
    ensures var v := Lookup(fs, ks[i]);
            Filled(fs, ks, i + 1, if Absent(v) then out else Put(out, ks[i], CanonValue(v)))
  {
    hide Less, Sorted, Keys, SortKeys, UniqueKeys, CanonFields, CanonValue, Get, Lookup, Put, Below;
    var k, v := ks[i], Lookup(fs, ks[i]);
    KeysAscending(fs);
    LookupIsGet(fs, k);
    CanonFieldsIs(fs);
    CanonAbsent(v);
    assert ks[..i + 1] == ks[..i] + [k];
    forall j | i + 1 <= j < |ks| ensures Less(k, ks[j]) { AscendingAt(ks, i, j); }
    if !Absent(v) {
      PutLast(out, k, CanonValue(v));
    }
  }

  lemma FilledAll(fs: Fields, ks: seq<string>, out: Fields)
    requires UniqueKeys(fs) && ks == SortKeys(Keys(fs)) && Filled(fs, ks, |ks|, out)
    ensures out == CanonFields(fs)
  {
    hide Less, Sorted, Keys, SortKeys, CanonFields, Get;
    KeysAscending(fs);
    CanonFieldsIs(fs);
    assert ks[..|ks|] == ks;
    forall k ensures Get(out, k) == Get(CanonFields(fs), k) {
      if k !in ks { NoKeyNoValue(fs, k); }
    }
    SortedByLookup(out, CanonFields(fs));
  }

  function Size(v: Json): nat
    decreases v
  {
    match v case Arr(items) => 1 + SizeItems(items) case Obj(fs) => 1 + SizeFields(fs) case _ => 0
  }

  function SizeItems(items: List<Json>): nat
    decreases items
  {
    match items case Nil => 0 case Cons(v, rest) => 1 + Size(v) + SizeItems(rest)
  }

  function SizeFields(fs: Fields): nat
    decreases fs
  {
    match fs case Nil => 0 case Cons(m, rest) => 1 + Size(m.value) + SizeFields(rest)
  }

  lemma {:induction false} LookupSize(fs: Fields, k: string)
    ensures !Absent(Lookup(fs, k)) ==> Size(Lookup(fs, k)) < SizeFields(fs)
  {
    if fs.Cons? { LookupSize(fs.tail, k); }
  }

  // ---- the program ----

  method CanonicalizeFields(fs: Fields) returns (out: Fields)
    requires UniqueKeys(fs) && ProperFields(fs)
    ensures out == CanonFields(fs)
    decreases SizeFields(fs), 2
  {
    hide Filled, SortKeys, CanonFields, CanonValue, UniqueKeys, ProperFields;
    var keys := SortKeys(Keys(fs));
    out := Nil;
    FilledNone(fs, keys);
    for i := 0 to |keys|
      invariant Filled(fs, keys, i, out)
    {
      var value := Lookup(fs, keys[i]);
      FilledNext(fs, keys, i, out);
      LookupIsGet(fs, keys[i]);
      LookupSize(fs, keys[i]);
      if Absent(value) {
        continue;
      }
      var canon := CanonicalizeValue(value);
      out := Put(out, keys[i], canon);
    }
    FilledAll(fs, keys, out);
  }

  lemma FilledNone(fs: Fields, ks: seq<string>)
    ensures Filled(fs, ks, 0, Nil)
  {
  }

  method CanonicalizeItems(items: List<Json>) returns (r: List<Json>)
    requires ProperItems(items)
    ensures r == CanonItems(items)
    decreases SizeItems(items), 2
  {
    match items {
      case Nil => r := Nil;
      case Cons(v, rest) =>
        var head := CanonicalizeValue(v);
        var tail := CanonicalizeItems(rest);
        r := Cons(head, tail);
    }
  }

  method CanonicalizeValue(v: Json) returns (r: Json)
    requires Proper(v)
    ensures r == CanonValue(v)
    decreases Size(v), 3
  {
    match v {
      case Arr(items) =>
        var canon := CanonicalizeItems(items);
        r := Arr(canon);
      case Obj(fs) =>
        var canon := CanonicalizeFields(fs);
        r := Obj(canon);
      case _ => r := v;
    }
  }

  /** Sort a copy by name, canonicalise each tool, serialise, hash. */
  method HashTools(tools: seq<Tool>, le: Collation, hash: Hash) returns (r: string)
    requires Orders(le) && AllNamed(tools)
    ensures r == CanonicalizeAndHash(tools, le, hash)
  {
    hide SortTools, CanonFields, Named;
    var sortedTools := SortTools(tools, le);
    SortToolsSorted(tools, le);
    var canonical: seq<Tool> := [];
    for i := 0 to |sortedTools|
      invariant canonical == CanonTools(sortedTools[..i])
    {
      assert sortedTools[i] in sortedTools && sortedTools[i] in tools;
      ToolIsProper(sortedTools[i]);
      var tool := CanonicalizeFields(sortedTools[i]);
      canonical := canonical + [tool];
      assert sortedTools[..i + 1][..i] == sortedTools[..i];
    }
    assert sortedTools[..|sortedTools|] == sortedTools;
    r := "sha256-" + hash(Serialized(canonical));
  }

  lemma ToolIsProper(t: Tool)
    requires Named(t)
    ensures UniqueKeys(t) && ProperFields(t)
  {
  }
}
