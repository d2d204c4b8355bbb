/** `redactedFields` of src/extensions/audit-redaction.ts names exactly the places of the result that hold the
    redaction marker. */
module RedactionPaths {
  import opened Wrappers
  import opened AuditRedaction

  // ---- places in a result ----

  /** The place `q` of the result exists and holds the marker. */
  predicate Marked(o: Out, q: Path)
    decreases o, 0
  {
    if q == [] then o == OText(REDACTED)
    else match o
      case OArr(items) => MarkedItem(items, 0, q)
      case OObj(fields) => MarkedField(fields, q)
      case _ => false
  }

  /** `items` start at index `i`. */
  predicate MarkedItem(items: List<Out>, i: nat, q: Path)
    requires q != []
    decreases items, 1
  {
    match items
    case Nil => false
    case Cons(o, rest) => if q[0] == Index(i) then Marked(o, q[1..]) else MarkedItem(rest, i + 1, q)
  }

  predicate MarkedField(fields: List<OField>, q: Path)
    requires q != []
    decreases fields, 1
  {
    match fields
    case Nil => false
    case Cons(f, rest) => if q[0] == Key(f.key) then Marked(f.value, q[1..]) else MarkedField(rest, q)
  }

  // ---- payloads the statement is about ----

  predicate HasKey(entries: List<Entry>, k: string) {
    match entries case Nil => false case Cons(e, rest) => e.key == k || HasKey(rest, k)
  }

  predicate DistinctKeys(entries: List<Entry>) {
    match entries case Nil => true case Cons(e, rest) => !HasKey(rest, e.key) && DistinctKeys(rest)
  }

  predicate NoMarkerItems(items: List<Value>) {
    match items case Nil => true case Cons(v, rest) => v != Text(REDACTED) && NoMarkerItems(rest)
  }

  predicate NoMarkerEntries(entries: List<Entry>) {
    match entries case Nil => true case Cons(e, rest) => e.value != Text(REDACTED) && NoMarkerEntries(rest)
  }

  /** An object has each key once, and no text of the payload is the marker itself. */
  ghost predicate Unmarked(h: Heap) {
    forall a: Address ::
      match h(a)
      case Bytes(_) => true
      case Err(name, message, cause, props) =>
        name != Text(REDACTED) && message != Text(REDACTED) && cause != Text(REDACTED) && NoMarkerEntries(props)
      case Arr(items) => NoMarkerItems(items)
      case Obj(entries) => DistinctKeys(entries) && NoMarkerEntries(entries)
  }

  lemma {:induction false} OtherPropsFresh(props: List<Entry>, taken: set<string>)
    requires NoMarkerEntries(props)
    ensures var r := OtherProps(props, taken);
            DistinctKeys(r) && NoMarkerEntries(r) && forall k :: k in taken ==> !HasKey(r, k)
  {
    if props.Cons? {
      hide INHERITED;
      OtherPropsFresh(props.tail, taken);
      OtherPropsFresh(props.tail, taken + {props.head.key});
    }
  }

  /** Re-wrapping an Error never lists a key twice. */
  lemma ErrorEntriesFresh(e: Node)
    requires e.Err? && e.name != Text(REDACTED) && e.message != Text(REDACTED) && e.cause != Text(REDACTED)
    requires NoMarkerEntries(e.props)
    ensures DistinctKeys(ErrorEntries(e)) && NoMarkerEntries(ErrorEntries(e))
  {
    OtherPropsFresh(e.props, {"name", "message"});
    OtherPropsFresh(e.props, {"name", "message", "cause"});
  }

  lemma {:induction false} NatDigitsStart(n: nat)
    ensures NatDigits(n) != [] && NatDigits(n)[0] != '['
  {
    if n >= 10 { NatDigitsStart(n / 10); }
  }

  /** No other text the redactor writes is the marker. */
  lemma OtherTextsDiffer()
    ensures CIRCULAR != REDACTED
    ensures forall n: nat :: BinaryMarker(n) != REDACTED
    ensures forall i: int :: Digits(i) != REDACTED
  {
    assert CIRCULAR[1] != REDACTED[1];
    forall n: nat ensures BinaryMarker(n) != REDACTED { assert BinaryMarker(n)[1] == 'b'; }
    forall i: int ensures Digits(i) != REDACTED { NatDigitsStart(if i < 0 then -i else i); }
  }

  // ---- the recorded paths ----

  /** `f` continues `path` to a marked place of `o`. */
  predicate Reports(path: Path, o: Out, f: Path) { path <= f && Marked(o, f[|path|..]) }

  predicate ReportsItem(path: Path, items: List<Out>, i: nat, f: Path) {
    path < f && MarkedItem(items, i, f[|path|..])
  }

  predicate ReportsField(path: Path, fields: List<OField>, f: Path) { path < f && MarkedField(fields, f[|path|..]) }

  lemma OneStep(path: Path, s: Step, o: Out, f: Path)
    ensures Reports(path + [s], o, f) <==> path < f && f[|path|] == s && Marked(o, f[|path|..][1..])
  {
    if path + [s] <= f {
      assert f[|path|..][1..] == f[|path + [s]|..];
      assert f[|path|] == (path + [s])[|path|];
      assert path == (path + [s])[..|path|];
    }
    if path < f && f[|path|] == s {
      assert f[..|path| + 1] == path + [s];
      assert f[|path|..][1..] == f[|path + [s]|..];
    }
  }

  lemma LeafReports(path: Path, o: Out)
    requires !o.OArr? && !o.OObj?
    ensures forall f :: Reports(path, o, f) <==> o == OText(REDACTED) && f == path
  {
    forall f ensures Reports(path, o, f) <==> o == OText(REDACTED) && f == path {
      if path <= f && f[|path|..] == [] { assert f == path + f[|path|..]; }
    }
  }

  lemma ArrayReports(path: Path, items: List<Out>)
    ensures forall f :: Reports(path, OArr(items), f) <==> ReportsItem(path, items, 0, f)
  {
    forall f ensures Reports(path, OArr(items), f) <==> ReportsItem(path, items, 0, f) {
      if path <= f && |f| == |path| { assert f[|path|..] == []; }
    }
  }

  lemma ObjectReports(path: Path, fields: List<OField>)
    ensures forall f :: Reports(path, OObj(fields), f) <==> ReportsField(path, fields, f)
  {
    forall f ensures Reports(path, OObj(fields), f) <==> ReportsField(path, fields, f) {
      if path <= f && |f| == |path| { assert f[|path|..] == []; }
    }
  }

  /** The paths a walk records are exactly the marked places of what it returns. */
  lemma {:induction false} WalkReports(h: Heap, p: Patterns, v: Value, path: Path, visited: set<Address>, depth: nat)
    requires Unmarked(h) && v != Text(REDACTED) && Walk(h, p, v, path, visited, depth).Some?
    ensures var w := Walk(h, p, v, path, visited, depth).value;
            forall f :: f in w.fields <==> Reports(path, w.out, f)
    decreases depth, 0
  {
    hide IsSensitiveKey, Digits, BinaryMarker, WalkItems, WalkEntries, ErrorEntries, OtherProps, MarkedItem,
         MarkedField;
    OtherTextsDiffer();
    var w := Walk(h, p, v, path, visited, depth).value;
    if v.At? {
      match h(v.address) {
        case Bytes(length) =>
        case Err(_, _, _, _) =>
          ErrorEntriesFresh(h(v.address));
          EntriesReport(h, p, ErrorEntries(h(v.address)), path, visited, depth - 2);
          ObjectReports(path, w.out.fields);
        case Arr(items) =>
          if v.address !in visited {
            ItemsReport(h, p, items, 0, path, visited + {v.address}, depth - 1);
            ArrayReports(path, w.out.items);
          }
        case Obj(entries) =>
          if v.address !in visited {
            EntriesReport(h, p, entries, path, visited + {v.address}, depth - 1);
            ObjectReports(path, w.out.fields);
          }
      }
    }
    if !w.out.OArr? && !w.out.OObj? { LeafReports(path, w.out); }
  }

  lemma {:induction false} ItemsReport(
    h: Heap, p: Patterns, items: List<Value>, i: nat, path: Path, visited: set<Address>, depth: nat)
    requires Unmarked(h) && NoMarkerItems(items) && WalkItems(h, p, items, i, path, visited, depth).Some?
    ensures var w := WalkItems(h, p, items, i, path, visited, depth).value;
            forall f :: f in w.fields <==> ReportsItem(path, w.out, i, f)
    ensures var w := WalkItems(h, p, items, i, path, visited, depth).value;
            forall q: Path :: q != [] && MarkedItem(w.out, i, q) ==> q[0].Index? && i <= q[0].i
    decreases depth, 2, items
  {
    hide Walk, Unmarked, Marked;
    if items.Cons? {
      WalkReports(h, p, items.head, path + [Index(i)], visited, depth);
      var w := Walk(h, p, items.head, path + [Index(i)], visited, depth).value;
      ItemsReport(h, p, items.tail, i + 1, path, w.visited, depth);
      forall f ensures Reports(path + [Index(i)], w.out, f) <==>
          path < f && f[|path|] == Index(i) && Marked(w.out, f[|path|..][1..]) {
        OneStep(path, Index(i), w.out, f);
      }
    }
  }

  lemma {:induction false} EntriesReport(
    h: Heap, p: Patterns, entries: List<Entry>, path: Path, visited: set<Address>, depth: nat)
    requires Unmarked(h) && NoMarkerEntries(entries) && DistinctKeys(entries)
    requires WalkEntries(h, p, entries, path, visited, depth).Some?
    ensures var w := WalkEntries(h, p, entries, path, visited, depth).value;
            forall f :: f in w.fields <==> ReportsField(path, w.out, f)
    ensures var w := WalkEntries(h, p, entries, path, visited, depth).value;
            forall q: Path :: q != [] && MarkedField(w.out, q) ==> q[0].Key? && HasKey(entries, q[0].key)
    decreases depth, 2, entries
  {
    hide Walk, Unmarked, Marked, IsSensitiveKey;
    if entries.Cons? {
      var e := entries.head;
      EntryReports(h, p, e, path + [Key(e.key)], visited, depth);
      var w := WalkEntry(h, p, e, path + [Key(e.key)], visited, depth).value;
      EntriesReport(h, p, entries.tail, path, w.visited, depth);
      forall f ensures Reports(path + [Key(e.key)], w.out, f) <==>
          path < f && f[|path|] == Key(e.key) && Marked(w.out, f[|path|..][1..]) {
        OneStep(path, Key(e.key), w.out, f);
      }
    }
  }

  lemma {:induction false} EntryReports(h: Heap, p: Patterns, e: Entry, path: Path, visited: set<Address>, depth: nat)
    requires Unmarked(h) && e.value != Text(REDACTED) && WalkEntry(h, p, e, path, visited, depth).Some?
    ensures var w := WalkEntry(h, p, e, path, visited, depth).value;
            forall f :: f in w.fields <==> Reports(path, w.out, f)
    decreases depth, 1
  {
    hide Walk, Unmarked, Marked, IsSensitiveKey;
    if !IsSensitiveKey(e.key) {
      WalkReports(h, p, e.value, path, visited, depth);
    } else {
      LeafReports(path, WalkEntry(h, p, e, path, visited, depth).value.out);
    }
  }

  /** `redactedFields` lists exactly the marked places of the result. */
  lemma RedactedFieldsExact(h: Heap, p: Patterns, payload: Value, opts: Options, c: Codec, depth: nat)
    requires Unmarked(h) && payload != Text(REDACTED) && RedactForAudit(h, p, payload, opts, c, depth).Redacted?
    ensures var r := RedactForAudit(h, p, payload, opts, c, depth);
            forall f :: f in r.fields <==> Marked(r.out, f)
  {
    hide Walk, Unmarked, Marked;
    WalkReports(h, p, payload, [], {}, depth);
    var r := RedactForAudit(h, p, payload, opts, c, depth);
    forall f ensures f in r.fields <==> Marked(r.out, f) {
      assert f[0..] == f;
    }
  }
}
