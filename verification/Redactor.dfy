/** `walk` of src/extensions/audit-redaction.ts as it runs: one `fields` list and one `visited` set, shared by every
    nested call and filled in place. */
module Redactor {
  import opened Wrappers
  import opened AuditRedaction

  function Concat<T>(xs: List<T>, ys: List<T>): List<T> {
    match xs case Nil => ys case Cons(x, rest) => Cons(x, Concat(rest, ys))
  }

  /** `out.push(x)` */
  function Push<T>(xs: List<T>, x: T): List<T> { Concat(xs, Cons(x, Nil)) }

  lemma {:induction false} PushConcat<T>(xs: List<T>, x: T, ys: List<T>)
    ensures Concat(Push(xs, x), ys) == Concat(xs, Cons(x, ys))
  {
    if xs.Cons? { PushConcat(xs.tail, x, ys); }
  }

  lemma {:induction false} ConcatNil<T>(xs: List<T>)
    ensures Concat(xs, Nil) == xs
  {
    if xs.Cons? { ConcatNil(xs.tail); }
  }

  /** What a loop has produced so far, followed by what the rest will produce. */
  function Then<T>(out: List<T>, fields: seq<Path>, rest: Option<Walked<List<T>>>): Option<Walked<List<T>>> {
    if rest.None? then None
    else Some(Walked(Concat(out, rest.value.out), fields + rest.value.fields, rest.value.visited))
  }

  lemma ThenNext<T>(out: List<T>, fields: seq<Path>, x: T, more: seq<Path>, rest: Option<Walked<List<T>>>)
    ensures Then(Push(out, x), fields + more, rest) ==
            if rest.None? then None
            else Then(out, fields, Some(Walked(Cons(x, rest.value.out), more + rest.value.fields, rest.value.visited)))
  {
    if rest.Some? {
      PushConcat(out, x, rest.value.out);
      assert (fields + more) + rest.value.fields == fields + (more + rest.value.fields);
    }
  }

  lemma ItemsStep(h: Heap, p: Patterns, items: List<Value>, i: nat, path: Path, visited: set<Address>, depth: nat)
    requires items.Cons?
    ensures var w := Walk(h, p, items.head, path + [Index(i)], visited, depth);
            WalkItems(h, p, items, i, path, visited, depth) ==
            if w.None? then None
            else
              var ws := WalkItems(h, p, items.tail, i + 1, path, w.value.visited, depth);
              if ws.None? then None
              else Some(Walked(Cons(w.value.out, ws.value.out), w.value.fields + ws.value.fields, ws.value.visited))
  {
  }

  lemma EntriesStep(h: Heap, p: Patterns, entries: List<Entry>, path: Path, visited: set<Address>, depth: nat)
    requires entries.Cons?
    ensures var w := WalkEntry(h, p, entries.head, path + [Key(entries.head.key)], visited, depth);
            WalkEntries(h, p, entries, path, visited, depth) ==
            if w.None? then None
            else
              var ws := WalkEntries(h, p, entries.tail, path, w.value.visited, depth);
              if ws.None? then None
              else
                Some(Walked(Cons(OField(entries.head.key, w.value.out), ws.value.out),
                            w.value.fields + ws.value.fields, ws.value.visited))
  {
  }

  /** `r` is what the specification returns, and the shared list and set have grown by what it says. */
  predicate Did<T(==)>(
    w: Option<Walked<T>>, r: Option<T>, before: seq<Path>, fields: seq<Path>, visited: set<Address>) {
    if w.None? then r.None?
    else r == Some(w.value.out) && fields == before + w.value.fields && visited == w.value.visited
  }

  class Walker {
    var fields: seq<Path>
    var visited: set<Address>

    constructor ()
      ensures fields == [] && visited == {}
    {
      fields, visited := [], {};
    }

    method WalkValue(h: Heap, p: Patterns, v: Value, path: Path, depth: nat) returns (r: Option<Out>)
      modifies this
      ensures Did(Walk(h, p, v, path, old(visited), depth), r, old(fields), fields, visited)
      decreases depth, 0
    {
      hide WalkItems, WalkEntries, Digits, BinaryMarker, ErrorEntries;
      if depth == 0 {
        return None;
      }
      match v {
        case Null => return Some(ONull);
        case Undefined => return Some(OUndefined);
        case Bool(b) => return Some(OBool(b));
        case Num(n) => return Some(ONum(n));
        case Text(s) =>
          if p(s) {
            fields := fields + [path];
            return Some(OText(REDACTED));
          }
          return Some(OText(s));
        case BigInt(i) => return Some(OText(Digits(i)));
        case Func => return Some(OUndefined);
        case At(a) =>
          r := WalkNode(h, p, a, path, depth);
      }
    }

    method WalkNode(h: Heap, p: Patterns, a: Address, path: Path, depth: nat) returns (r: Option<Out>)
      requires 0 < depth
      modifies this
      ensures Did(Walk(h, p, At(a), path, old(visited), depth), r, old(fields), fields, visited)
      decreases depth - 1, 3
    {
      hide WalkItems, WalkEntries, Digits, BinaryMarker, ErrorEntries;
      match h(a) {
        case Bytes(length) => return Some(OText(BinaryMarker(length)));
        case Err(_, _, _, _) =>
          if depth == 1 {
            return None;
          }
          var plain := WalkMembers(h, p, ErrorEntries(h(a)), path, depth - 2);
          r := if plain.None? then None else Some(OObj(plain.value));
        case Arr(items) =>
          if a in visited {
            return Some(OText(CIRCULAR));
          }
          visited := visited + {a};
          var out := WalkArray(h, p, items, path, depth - 1);
          r := if out.None? then None else Some(OArr(out.value));
        case Obj(entries) =>
          if a in visited {
            return Some(OText(CIRCULAR));
          }
          visited := visited + {a};
          var out := WalkMembers(h, p, entries, path, depth - 1);
          r := if out.None? then None else Some(OObj(out.value));
      }
    }

    method WalkArray(h: Heap, p: Patterns, items: List<Value>, path: Path, depth: nat) returns (r: Option<List<Out>>)
      modifies this
      ensures Did(WalkItems(h, p, items, 0, path, old(visited), depth), r, old(fields), fields, visited)
      decreases depth, 2
    {
      hide Walk, WalkItems, Then;
      var out, rest, i := Nil, items, 0;
      ghost var added: seq<Path> := [];
      ThenStarts(WalkItems(h, p, items, 0, path, visited, depth));
      while rest.Cons?
        invariant fields == old(fields) + added
        invariant WalkItems(h, p, items, 0, path, old(visited), depth) ==
                  Then(out, added, WalkItems(h, p, rest, i, path, visited, depth))
        decreases rest
      {
        ItemsStep(h, p, rest, i, path, visited, depth);
        ghost var w := Walk(h, p, rest.head, path + [Index(i)], visited, depth);
        var item := WalkValue(h, p, rest.head, path + [Index(i)], depth);
        if item.None? {
          ThenNone(out, added);
          return None;
        }
        ThenNext(out, added, item.value, w.value.fields, WalkItems(h, p, rest.tail, i + 1, path, visited, depth));
        ThenNone(out, added);
        added := added + w.value.fields;
        out, rest, i := Push(out, item.value), rest.tail, i + 1;
      }
      ThenEnds(h, p, out, added, i, path, visited, depth);
      r := Some(out);
    }

    method WalkMembers(h: Heap, p: Patterns, entries: List<Entry>, path: Path, depth: nat)
      returns (r: Option<List<OField>>)
      modifies this
      ensures Did(WalkEntries(h, p, entries, path, old(visited), depth), r, old(fields), fields, visited)
      decreases depth, 2
    {
      hide Walk, WalkEntries, Then, IsSensitiveKey;
      var out, rest := Nil, entries;
      ghost var added: seq<Path> := [];
      ThenStarts(WalkEntries(h, p, entries, path, visited, depth));
      while rest.Cons?
        invariant fields == old(fields) + added
        invariant WalkEntries(h, p, entries, path, old(visited), depth) ==
                  Then(out, added, WalkEntries(h, p, rest, path, visited, depth))
        decreases rest
      {
        var e := rest.head;
        EntriesStep(h, p, rest, path, visited, depth);
        ghost var w := WalkEntry(h, p, e, path + [Key(e.key)], visited, depth);
        var value: Out;
        if IsSensitiveKey(e.key) {
          if e.value != Null && e.value != Undefined {
            fields := fields + [path + [Key(e.key)]];
            value := OText(REDACTED);
          } else {
            value := if e.value == Null then ONull else OUndefined;
          }
        } else {
          var walked := WalkValue(h, p, e.value, path + [Key(e.key)], depth);
          if walked.None? {
            ThenNone(out, added);
            return None;
          }
          value := walked.value;
        }
        ThenNext(out, added, OField(e.key, value), w.value.fields, WalkEntries(h, p, rest.tail, path, visited, depth));
        ThenNone(out, added);
        added := added + w.value.fields;
        out, rest := Push(out, OField(e.key, value)), rest.tail;
      }
      MembersEnd(h, p, out, added, path, visited, depth);
      r := Some(out);
    }
  }

  lemma ThenStarts<T>(w: Option<Walked<List<T>>>)
    ensures Then(Nil, [], w) == w
  {
    if w.Some? { assert [] + w.value.fields == w.value.fields; }
  }

  lemma ThenNone<T>(out: List<T>, fields: seq<Path>)
    ensures Then(out, fields, None) == None
  {
  }

  lemma ThenEnds(
    h: Heap, p: Patterns, out: List<Out>, fields: seq<Path>, i: nat, path: Path, visited: set<Address>, depth: nat)
    ensures Then(out, fields, WalkItems(h, p, Nil, i, path, visited, depth)) == Some(Walked(out, fields, visited))
  {
    ConcatNil(out);
    assert fields + [] == fields;
  }

  lemma MembersEnd(
    h: Heap, p: Patterns, out: List<OField>, fields: seq<Path>, path: Path, visited: set<Address>, depth: nat)
    ensures Then(out, fields, WalkEntries(h, p, Nil, path, visited, depth)) == Some(Walked(out, fields, visited))
  {
    ConcatNil(out);
    assert fields + [] == fields;
  }
}
