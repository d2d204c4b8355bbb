/** What a redaction keeps: the result has the shape of the payload, with the marker exactly at sensitive keys and
    matching texts; when it is cut short, and what is left of it then. */
module RedactionShape {
  import opened Wrappers
  import opened AuditRedaction

  // ---- the result shows the payload ----

  /** `o` shows `v`: scalars as they are, matching texts as the marker, containers member by member and in order. Only
      an object or array can be shown as circular. */
  predicate Shows(h: Heap, p: Patterns, v: Value, o: Out)
    decreases o, 0
  {
    match v
    case Null => o == ONull
    case Undefined => o == OUndefined
    case Func => o == OUndefined
    case Bool(b) => o == OBool(b)
    case Num(n) => o == ONum(n)
    case Text(s) => o == OText(if p(s) then "[REDACTED]" else s)
    case BigInt(i) => o.OText? && ReadsInt(o.s, i)
    case At(a) =>
      match h(a) {
        case Bytes(length) => o == OText(BinaryMarker(length))
        case Err(_, _, _, _) => o.OObj? && ShowsEntries(h, p, ErrorEntries(h(a)), o.fields)
        case Arr(items) => o == OText("[Circular]") || (o.OArr? && ShowsItems(h, p, items, o.items))
        case Obj(entries) => o == OText("[Circular]") || (o.OObj? && ShowsEntries(h, p, entries, o.fields))
      }
  }

  predicate ShowsItems(h: Heap, p: Patterns, items: List<Value>, os: List<Out>)
    decreases os, 1
  {
    match os
    case Nil => items.Nil?
    case Cons(o, rest) => items.Cons? && Shows(h, p, items.head, o) && ShowsItems(h, p, items.tail, rest)
  }

  /** Under a sensitive key only nothing is shown as itself. */
  predicate ShowsEntries(h: Heap, p: Patterns, entries: List<Entry>, fs: List<OField>)
    decreases fs, 1
  {
    match fs
    case Nil => entries.Nil?
    case Cons(f, rest) =>
      && entries.Cons? && f.key == entries.head.key
      && (if IsSensitiveKey(f.key) then
            f.value == if entries.head.value == Null then ONull
                       else if entries.head.value == Undefined then OUndefined else OText("[REDACTED]")
          else Shows(h, p, entries.head.value, f.value))
      && ShowsEntries(h, p, entries.tail, rest)
  }

  /** Whatever the payload, a redaction that returns shows it. */
  lemma {:induction false} WalkShows(h: Heap, p: Patterns, v: Value, path: Path, visited: set<Address>, depth: nat)
    ensures var w := Walk(h, p, v, path, visited, depth); w.Some? ==> Shows(h, p, v, w.value.out)
    decreases depth, 0
  {
    hide IsSensitiveKey, Digits, BinaryMarker, ErrorEntries, ReadsInt;
    if depth > 0 && v.BigInt? { DigitsRead(v.i); }
    if depth > 0 && v.At? {
      match h(v.address) {
        case Bytes(length) =>
        case Err(_, _, _, _) =>
          if depth > 1 { EntriesShow(h, p, ErrorEntries(h(v.address)), path, visited, depth - 2); }
        case Arr(items) => ItemsShow(h, p, items, 0, path, visited + {v.address}, depth - 1);
        case Obj(entries) => EntriesShow(h, p, entries, path, visited + {v.address}, depth - 1);
      }
    }
  }

  lemma {:induction false} ItemsShow(
    h: Heap, p: Patterns, items: List<Value>, i: nat, path: Path, visited: set<Address>, depth: nat)
    ensures var w := WalkItems(h, p, items, i, path, visited, depth); w.Some? ==> ShowsItems(h, p, items, w.value.out)
    decreases depth, 2, items
  {
    hide Walk, Shows;
    if items.Cons? {
      WalkShows(h, p, items.head, path + [Index(i)], visited, depth);
      var w := Walk(h, p, items.head, path + [Index(i)], visited, depth);
      if w.Some? { ItemsShow(h, p, items.tail, i + 1, path, w.value.visited, depth); }
    }
  }

  lemma {:induction false} EntriesShow(
    h: Heap, p: Patterns, entries: List<Entry>, path: Path, visited: set<Address>, depth: nat)
    ensures var w := WalkEntries(h, p, entries, path, visited, depth);
            w.Some? ==> ShowsEntries(h, p, entries, w.value.out)
    decreases depth, 2, entries
  {
    hide Walk, Shows, IsSensitiveKey;
    if entries.Cons? {
      var e := entries.head;
      WalkShows(h, p, e.value, path + [Key(e.key)], visited, depth);
      var w := WalkEntry(h, p, e, path + [Key(e.key)], visited, depth);
      if w.Some? { EntriesShow(h, p, entries.tail, path, w.value.visited, depth); }
    }
  }

  // ---- numbers as text ----

  /** The natural number that decimal digits denote. */
  function NatOf(s: string): int {
    if s == [] then 0 else 10 * NatOf(s[..|s| - 1]) + (s[|s| - 1] as int - '0' as int)
  }

  predicate ReadsInt(s: string, i: int) {
    if s != [] && s[0] == '-' then i < 0 && NatOf(s[1..]) == -i else 0 <= i && s != [] && NatOf(s) == i
  }

  lemma {:induction false} NatDigitsRead(n: nat)
    ensures NatDigits(n) != [] && '0' <= NatDigits(n)[0] <= '9' && NatOf(NatDigits(n)) == n
  {
    if n < 10 {
      assert NatDigits(n)[..0] == [];
    } else {
      NatDigitsRead(n / 10);
      assert NatDigits(n)[..|NatDigits(n)| - 1] == NatDigits(n / 10);
    }
  }

  lemma DigitsRead(i: int)
    ensures ReadsInt(Digits(i), i)
  {
    NatDigitsRead(if i < 0 then -i else i);
    if i < 0 { assert Digits(i)[1..] == NatDigits(-i); }
  }

  // ---- what an Error shows ----

  function FirstUnder(entries: List<Entry>, key: string): Option<Value> {
    match entries
    case Nil => None
    case Cons(e, rest) => if e.key == key then Some(e.value) else FirstUnder(rest, key)
  }

  /** An Error is shown as its name, its message, its cause if it has one, and any other property of its own but those
      named like what every object inherits. */
  lemma ErrorShows(e: Node, key: string)
    requires e.Err?
    ensures FirstUnder(ErrorEntries(e), key) ==
            if key == "name" then Some(e.name)
            else if key == "message" then Some(e.message)
            else if key == "cause" && e.cause != Undefined then Some(e.cause)
            else if key in INHERITED then None
            else FirstUnder(e.props, key)
  {
    OtherPropsUnder(e.props, {"name", "message"}, key);
    OtherPropsUnder(e.props, {"name", "message", "cause"}, key);
    var tail := ErrorEntries(e).tail.tail;
    assert FirstUnder(ErrorEntries(e).tail, key) == if key == "message" then Some(e.message) else FirstUnder(tail, key);
    NotInherited();
  }

  lemma NotInherited()
    ensures "name" !in INHERITED && "message" !in INHERITED && "cause" !in INHERITED
  {
  }

  lemma {:induction false} OtherPropsUnder(props: List<Entry>, taken: set<string>, key: string)
    ensures FirstUnder(OtherProps(props, taken), key) ==
            if key in taken || key in INHERITED then None else FirstUnder(props, key)
  {
    if props.Cons? {
      OtherPropsUnder(props.tail, taken, key);
      OtherPropsUnder(props.tail, taken + {props.head.key}, key);
    }
  }

  // ---- sensitive keys ----

  predicate PartAt(s: string, part: string, i: nat) { i + |part| <= |s| && s[i..i + |part|] == part }

  lemma {:induction false} ContainsIff(s: string, part: string)
    ensures Contains(s, part) <==> exists i: nat :: PartAt(s, part, i)
  {
    if part <= s {
      assert PartAt(s, part, 0);
    } else if s != [] {
      ContainsIff(s[1..], part);
      if i: nat :| PartAt(s, part, i) {
        assert PartAt(s[1..], part, i - 1);
      }
      if i: nat :| PartAt(s[1..], part, i) {
        assert PartAt(s, part, i + 1);
      }
    }
  }

  lemma PartsAre(part: string)
    ensures part in SENSITIVE_PARTS <==>
            part in {"secret", "token", "password", "credential", "api_key", "private_key"}
  {
    InSix(SENSITIVE_PARTS, part);
  }

  lemma NamesAre(name: string)
    ensures name in SENSITIVE_NAMES <==>
            name in {"authorization", "x-api-key", "openai-organization", "openai-project", "cookie", "set-cookie",
                     "proxy-authorization"}
  {
    var names := SENSITIVE_NAMES;
    InSix(names[..6], name);
    assert names == names[..6] + [names[6]];
  }

  lemma InSix(list: seq<string>, x: string)
    requires |list| == 6
    ensures x in list <==> x in {list[0], list[1], list[2], list[3], list[4], list[5]}
  {
  }

  ghost predicate Occurs(s: string, part: string) { exists i: nat :: PartAt(s, part, i) }

  /** The keys whose values are hidden, whatever their case. */
  lemma SensitiveIff(key: string)
    ensures IsSensitiveKey(key) <==>
            || Lower(key) in {"authorization", "x-api-key", "openai-organization", "openai-project", "cookie",
                              "set-cookie", "proxy-authorization"}
            || Occurs(Lower(key), "secret") || Occurs(Lower(key), "token") || Occurs(Lower(key), "password")
            || Occurs(Lower(key), "credential") || Occurs(Lower(key), "api_key") || Occurs(Lower(key), "private_key")
  {
    hide Contains, SENSITIVE_PARTS, SENSITIVE_NAMES, Lower, Occurs;
    NamesAre(Lower(key));
    forall part
      ensures Contains(Lower(key), part) <==> Occurs(Lower(key), part)
      ensures part in SENSITIVE_PARTS <==>
              part in {"secret", "token", "password", "credential", "api_key", "private_key"}
    {
      OccursIff(Lower(key), part);
      PartsAre(part);
    }
  }

  lemma OccursIff(s: string, part: string)
    ensures Contains(s, part) <==> Occurs(s, part)
  {
    hide Contains, PartAt;
    ContainsIff(s, part);
  }

  // ---- the size cap ----

  /** A result is cut short exactly when that is not switched off and the redacted text is longer than the limit, 8192
      bytes unless one is given. What is left is its first 4096 characters, its length and the hash of all of it. */
  lemma TruncatedIff(h: Heap, p: Patterns, payload: Value, opts: Options, c: Codec, depth: nat)
    requires Walk(h, p, payload, [], {}, depth).Some?
    ensures var r := RedactForAudit(h, p, payload, opts, c, depth);
            var w := Walk(h, p, payload, [], {}, depth).value;
            var text := c.text(w.out);
            var limit := if opts.maxBytes.Some? then opts.maxBytes.value else 8192;
            && (r.Truncated? <==> opts.truncate && limit < c.bytes(text))
            && (r.Truncated? ==>
                  && r.preview <= text && |r.preview| == (if |text| < 4096 then |text| else 4096)
                  && r.originalBytes == c.bytes(text) && r.sha256 == c.sha256(text) && r.fields == w.fields)
            && (!r.Truncated? ==> r == Redacted(w.out, w.fields))
  {
    hide Walk;
  }
}
