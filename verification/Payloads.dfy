/** JSON-like payload values and the two payload checks of the mission builder. */
module Payloads {
  import opened Outcomes

  datatype Key = Text(text: string) | NotText

  /** `Opaque` stands for a Python value that is not JSON-safe. Mappings are lists of
      entries in iteration order. */
  datatype Json =
    | Null
    | Scalar(text: string)
    | List(items: seq<Json>)
    | Object(entries: seq<Entry>)
    | Opaque

  datatype Entry = Entry(key: Key, value: Json)

  function LowerChar(c: char): char {
    if 'A' <= c <= 'Z' then (c as int - 'A' as int + 'a' as int) as char else c
  }

  /** ASCII lower-casing. */
  function Lower(s: string): (r: string)
    ensures |r| == |s|
  {
    seq(|s|, i requires 0 <= i < |s| => LowerChar(s[i]))
  }

  predicate KeyIn(k: Key, names: set<string>) {
    k.Text? && Lower(k.text) in names
  }

  function Size(j: Json): (n: nat)
    ensures n > 0
  {
    match j
    case List(items) => 1 + SizeItems(items)
    case Object(entries) => 1 + SizeEntries(entries)
    case _ => 1
  }

  function SizeItems(items: seq<Json>): nat {
    if items == [] then 0 else Size(items[0]) + SizeItems(items[1..])
  }

  function SizeEntries(entries: seq<Entry>): nat {
    if entries == [] then 0 else SizeEntry(entries[0]) + SizeEntries(entries[1..])
  }

  function SizeEntry(e: Entry): nat {
    Size(e.value)
  }

  /** Some mapping inside `j`, at any depth, has a key of `names` in any letter case. */
  predicate Mentions(j: Json, names: set<string>) {
    match j
    case List(items) => exists i :: 0 <= i < |items| && Mentions(items[i], names)
    case Object(entries) =>
      exists i :: 0 <= i < |entries| && (KeyIn(entries[i].key, names) || Mentions(entries[i].value, names))
    case _ => false
  }

  ghost predicate AnyMentions(stack: seq<Json>, names: set<string>) {
    exists i :: 0 <= i < |stack| && Mentions(stack[i], names)
  }

  lemma {:induction false} SizeItemsAppend(a: seq<Json>, b: seq<Json>)
    ensures SizeItems(a + b) == SizeItems(a) + SizeItems(b)
  {
    if a == [] {
      assert a + b == b;
    } else {
      SizeItemsAppend(a[1..], b);
      assert (a + b)[1..] == a[1..] + b;
    }
  }

  lemma {:induction false} SizeEntriesAppend(a: seq<Entry>, b: seq<Entry>)
    ensures SizeEntries(a + b) == SizeEntries(a) + SizeEntries(b)
  {
    if a == [] {
      assert a + b == b;
    } else {
      SizeEntriesAppend(a[1..], b);
      assert (a + b)[1..] == a[1..] + b;
    }
  }

  lemma SizeOfEntry(entries: seq<Entry>, i: nat)
    requires i < |entries|
    ensures SizeEntries(entries[..i + 1]) == SizeEntries(entries[..i]) + Size(entries[i].value)
  {
    SizeEntriesAppend(entries[..i], [entries[i]]);
    assert entries[..i + 1] == entries[..i] + [entries[i]];
    assert SizeEntries([entries[i]]) == Size(entries[i].value) + SizeEntries([entries[i]][1..]);
  }

  lemma SizeOfPushed(stack: seq<Json>, v: Json)
    ensures SizeItems(stack + [v]) == SizeItems(stack) + Size(v)
  {
    SizeItemsAppend(stack, [v]);
    assert SizeItems([v]) == Size(v) + SizeItems([v][1..]);
  }

  lemma PushMentions(stack: seq<Json>, v: Json, names: set<string>)
    ensures AnyMentions(stack + [v], names) <==> AnyMentions(stack, names) || Mentions(v, names)
  {
    if AnyMentions(stack, names) {
      var i :| 0 <= i < |stack| && Mentions(stack[i], names);
      assert (stack + [v])[i] == stack[i];
    }
    if Mentions(v, names) {
      assert (stack + [v])[|stack|] == v;
    }
  }

  /** Looks at one mapping's keys and pushes its nested containers. */
  method ScanObject(entries: seq<Entry>, rest: seq<Json>, forbidden: set<string>)
    returns (found: bool, stack: seq<Json>)
    ensures found ==> Mentions(Object(entries), forbidden)
    ensures !found ==> SizeItems(stack) < SizeItems(rest) + Size(Object(entries))
    ensures !found ==>
      (AnyMentions(stack, forbidden) <==> AnyMentions(rest, forbidden) || Mentions(Object(entries), forbidden))
  {
    stack := rest;
    for i := 0 to |entries|
      invariant SizeItems(stack) <= SizeItems(rest) + SizeEntries(entries[..i])
      invariant AnyMentions(stack, forbidden) <==>
        AnyMentions(rest, forbidden) || exists k :: 0 <= k < i && Mentions(entries[k].value, forbidden)
      invariant forall k :: 0 <= k < i ==> !KeyIn(entries[k].key, forbidden)
    {
      var Entry(k, v) := entries[i];
      if KeyIn(k, forbidden) {
        return true, [];
      }
      SizeOfEntry(entries, i);
      if v.Object? || v.List? {
        SizeOfPushed(stack, v);
        PushMentions(stack, v, forbidden);
        stack := stack + [v];
      }
    }
    assert entries[..|entries|] == entries;
    return false, stack;
  }

  /** Pushes the nested containers of one list. */
  method ScanList(items: seq<Json>, rest: seq<Json>, forbidden: set<string>) returns (stack: seq<Json>)
    ensures SizeItems(stack) < SizeItems(rest) + Size(List(items))
    ensures AnyMentions(stack, forbidden) <==> AnyMentions(rest, forbidden) || Mentions(List(items), forbidden)
  {
    stack := rest;
    for i := 0 to |items|
      invariant SizeItems(stack) <= SizeItems(rest) + SizeItems(items[..i])
      invariant AnyMentions(stack, forbidden) <==>
        AnyMentions(rest, forbidden) || exists k :: 0 <= k < i && Mentions(items[k], forbidden)
    {
      var v := items[i];
      SizeOfPushed(items[..i], v);
      assert items[..i + 1] == items[..i] + [v];
      if v.Object? || v.List? {
        SizeOfPushed(stack, v);
        PushMentions(stack, v, forbidden);
        stack := stack + [v];
      }
    }
    assert items[..|items|] == items;
  }

  /** The forbidden-key scan: an explicit stack of containers still to look into. It
      agrees with the recursive definition of a forbidden key anywhere inside. */
  method ContainsForbiddenKeys(payload: Json, forbidden: set<string>) returns (found: bool)
    ensures found <==> Mentions(payload, forbidden)
  {
    var stack := [payload];
    PushMentions([], payload, forbidden);
    assert [] + [payload] == stack;
    while stack != []
      invariant AnyMentions(stack, forbidden) <==> Mentions(payload, forbidden)
      decreases SizeItems(stack)
    {
      var top := stack[|stack| - 1];
      ghost var rest := stack[..|stack| - 1];
      SizeOfPushed(rest, top);
      PushMentions(rest, top, forbidden);
      assert stack == rest + [top];
      stack := stack[..|stack| - 1];
      if top.Object? {
        found, stack := ScanObject(top.entries, stack, forbidden);
        if found {
          return true;
        }
      } else if top.List? {
        stack := ScanList(top.items, stack, forbidden);
      }
    }
    return false;
  }

  predicate JsonSafe(j: Json) {
    match j
    case Opaque => false
    case List(items) => forall i :: 0 <= i < |items| ==> JsonSafe(items[i])
    case Object(entries) =>
      forall i :: 0 <= i < |entries| ==> entries[i].key.Text? && JsonSafe(entries[i].value)
    case _ => true
  }

  const REDACTED := Scalar("[redacted]")

  /** Replaces the value of every sensitive key; other values are rebuilt in place. */
  function Redact(j: Json, sensitive: set<string>): Json {
    match j
    case List(items) =>
      List(seq(|items|, i requires 0 <= i < |items| => Redact(items[i], sensitive)))
    case Object(entries) =>
      Object(seq(|entries|, i requires 0 <= i < |entries| =>
        Entry(entries[i].key, if KeyIn(entries[i].key, sensitive) then REDACTED else Redact(entries[i].value, sensitive))))
    case _ => j
  }

  /** No value under a sensitive key survives. */
  ghost predicate Clean(j: Json, sensitive: set<string>) {
    match j
    case List(items) => forall i :: 0 <= i < |items| ==> Clean(items[i], sensitive)
    case Object(entries) =>
      forall i :: 0 <= i < |entries| ==>
        if KeyIn(entries[i].key, sensitive) then entries[i].value == REDACTED else Clean(entries[i].value, sensitive)
    case _ => true
  }

  /** Redaction leaves nothing sensitive, never turns a safe payload unsafe, adds no
      forbidden key, and is the identity exactly on payloads that were clean. */
  lemma {:induction false} RedactionSound(j: Json, sensitive: set<string>, forbidden: set<string>)
    ensures Clean(Redact(j, sensitive), sensitive)
    ensures JsonSafe(j) ==> JsonSafe(Redact(j, sensitive))
    ensures !Mentions(j, forbidden) ==> !Mentions(Redact(j, sensitive), forbidden)
    ensures Redact(j, sensitive) == j <==> Clean(j, sensitive)
  {
    var r := Redact(j, sensitive);
    match j {
      case List(items) =>
        forall i | 0 <= i < |items|
          ensures Clean(r.items[i], sensitive) && (JsonSafe(items[i]) ==> JsonSafe(r.items[i]))
          ensures !Mentions(items[i], forbidden) ==> !Mentions(r.items[i], forbidden)
          ensures r.items[i] == items[i] <==> Clean(items[i], sensitive)
        {
          RedactionSound(items[i], sensitive, forbidden);
        }
      case Object(entries) =>
        forall i | 0 <= i < |entries|
          ensures KeyIn(entries[i].key, sensitive) || Clean(r.entries[i].value, sensitive)
          ensures JsonSafe(entries[i].value) ==> JsonSafe(r.entries[i].value)
          ensures !Mentions(entries[i].value, forbidden) ==> !Mentions(r.entries[i].value, forbidden)
          ensures KeyIn(entries[i].key, sensitive) || (r.entries[i].value == entries[i].value <==> Clean(entries[i].value, sensitive))
        {
          RedactionSound(entries[i].value, sensitive, forbidden);
        }
      case _ =>
    }
  }

  // ----- in plain terms -----

  /** The same string up to the case of ASCII letters. */
  predicate SameLetters(a: string, b: string) {
    |a| == |b| && forall i :: 0 <= i < |a| ==>
      || a[i] == b[i]
      || ('A' <= a[i] <= 'Z' && b[i] as int == a[i] as int + 32)
      || ('A' <= b[i] <= 'Z' && a[i] as int == b[i] as int + 32)
  }

  predicate NoCapitals(s: string) {
    forall i :: 0 <= i < |s| ==> !('A' <= s[i] <= 'Z')
  }

  /** A text is a name in any letter case exactly if it lower-cases to it. */
  lemma LowerExactly(s: string, name: string)
    requires NoCapitals(name)
    ensures Lower(s) == name <==> SameLetters(s, name)
  {
    if SameLetters(s, name) {
      forall i | 0 <= i < |s| ensures Lower(s)[i] == name[i] {
        assert !('A' <= name[i] <= 'Z');
      }
    }
    if Lower(s) == name {
      forall i | 0 <= i < |s| ensures s[i] == name[i] || ('A' <= s[i] <= 'Z' && name[i] as int == s[i] as int + 32) {
        assert name[i] == LowerChar(s[i]);
      }
    }
  }

  /** What stands at a path of positions inside a value, if anything does. */
  function At(j: Json, path: seq<nat>): Option<Json>
    decreases |path|
  {
    if path == [] then Some(j)
    else
      match j
      case List(items) => if path[0] < |items| then At(items[path[0]], path[1..]) else None
      case Object(entries) => if path[0] < |entries| then At(entries[path[0]].value, path[1..]) else None
      case _ => None
  }

  /** A mapping at this path has one of the names, in any letter case, as its key number `i`. */
  predicate HasKeyAt(j: Json, path: seq<nat>, i: nat, names: set<string>) {
    var inner := At(j, path);
    && inner.Some? && inner.value.Object? && i < |inner.value.entries|
    && inner.value.entries[i].key.Text?
    && exists name :: name in names && SameLetters(inner.value.entries[i].key.text, name)
  }

  lemma KeyInExactly(k: Key, names: set<string>)
    requires forall name :: name in names ==> NoCapitals(name)
    ensures KeyIn(k, names) <==> k.Text? && exists name :: name in names && SameLetters(k.text, name)
  {
    if k.Text? {
      forall name | name in names ensures Lower(k.text) == name <==> SameLetters(k.text, name) {
        LowerExactly(k.text, name);
      }
    }
  }

  /** A payload mentions a name exactly if some mapping at some path has it as a key. */
  lemma {:induction false} MentionsExactly(j: Json, names: set<string>)
    requires forall name :: name in names ==> NoCapitals(name)
    ensures Mentions(j, names) <==> exists path, i :: HasKeyAt(j, path, i, names)
  {
    if Mentions(j, names) {
      var path, i := MentionedAt(j, names);
    }
    if exists path, i :: HasKeyAt(j, path, i, names) {
      var path, i :| HasKeyAt(j, path, i, names);
      KeyMentioned(j, path, i, names);
    }
  }

  lemma {:induction false} MentionedAt(j: Json, names: set<string>) returns (path: seq<nat>, i: nat)
    requires Mentions(j, names) && forall name :: name in names ==> NoCapitals(name)
    ensures HasKeyAt(j, path, i, names)
  {
    match j {
      case List(items) =>
        var n :| 0 <= n < |items| && Mentions(items[n], names);
        path, i := MentionedAt(items[n], names);
        path := [n] + path;
      case Object(entries) =>
        var n :| 0 <= n < |entries| && (KeyIn(entries[n].key, names) || Mentions(entries[n].value, names));
        if KeyIn(entries[n].key, names) {
          KeyInExactly(entries[n].key, names);
          path, i := [], n;
        } else {
          path, i := MentionedAt(entries[n].value, names);
          path := [n] + path;
        }
    }
  }

  lemma {:induction false} KeyMentioned(j: Json, path: seq<nat>, i: nat, names: set<string>)
    requires HasKeyAt(j, path, i, names) && forall name :: name in names ==> NoCapitals(name)
    ensures Mentions(j, names)
    decreases |path|
  {
    if path == [] {
      KeyInExactly(j.entries[i].key, names);
    } else {
      match j {
        case List(items) => KeyMentioned(items[path[0]], path[1..], i, names);
        case Object(entries) => KeyMentioned(entries[path[0]].value, path[1..], i, names);
      }
    }
  }

  /** Nothing at this path is opaque, and a mapping there has only texts as keys. */
  predicate SafeAt(j: Json, path: seq<nat>) {
    var inner := At(j, path);
    inner.Some? ==>
      && !inner.value.Opaque?
      && (inner.value.Object? ==> forall i :: 0 <= i < |inner.value.entries| ==> inner.value.entries[i].key.Text?)
  }

  /** The values directly inside a list or a mapping. */
  function Inside(j: Json): seq<Json> {
    match j
    case List(items) => items
    case Object(entries) => seq(|entries|, i requires 0 <= i < |entries| => entries[i].value)
    case _ => []
  }

  /** A value is JSON-safe exactly if it is so at every path. */
  lemma {:induction false} JsonSafeExactly(j: Json)
    ensures JsonSafe(j) <==> forall path :: SafeAt(j, path)
  {
    match j {
      case List(items) =>
        forall i | 0 <= i < |items| ensures JsonSafe(items[i]) <==> forall path :: SafeAt(items[i], path) {
          JsonSafeExactly(items[i]);
        }
      case Object(entries) =>
        forall i | 0 <= i < |entries| ensures JsonSafe(Inside(j)[i]) <==> forall path :: SafeAt(Inside(j)[i], path) {
          JsonSafeExactly(entries[i].value);
        }
      case _ =>
    }
    SafeInside(j);
    SafeStep(j);
  }

  lemma SafeStep(j: Json)
    ensures JsonSafe(j) <==> SafeAt(j, []) && forall i :: 0 <= i < |Inside(j)| ==> JsonSafe(Inside(j)[i])
  {
    assert At(j, []) == Some(j);
    match j {
      case Object(entries) =>
        forall i | 0 <= i < |entries| ensures Inside(j)[i] == entries[i].value {
        }
        assert (forall i :: 0 <= i < |entries| ==> JsonSafe(Inside(j)[i])) ==> forall i :: 0 <= i < |entries| ==> JsonSafe(entries[i].value);
        assert JsonSafe(j) ==> forall i :: 0 <= i < |entries| ==> JsonSafe(entries[i].value);
      case List(items) => assert Inside(j) == items;
      case _ =>
    }
  }

  /** Being safe at every path is being safe here and at every path of each value inside. */
  lemma SafeInside(j: Json)
    ensures (forall path :: SafeAt(j, path)) <==> SafeAt(j, []) && forall i, path :: 0 <= i < |Inside(j)| ==> SafeAt(Inside(j)[i], path)
  {
    forall path: seq<nat> | path != [] ensures SafeAt(j, path) <==> (path[0] < |Inside(j)| ==> SafeAt(Inside(j)[path[0]], path[1..])) {
    }
    if forall path :: SafeAt(j, path) {
      forall i, path | 0 <= i < |Inside(j)| ensures SafeAt(Inside(j)[i], path) {
        var n: nat := i;
        assert ([n] + path)[1..] == path && SafeAt(j, [n] + path);
      }
    }
    if SafeAt(j, []) && forall i, path :: 0 <= i < |Inside(j)| ==> SafeAt(Inside(j)[i], path) {
      forall path ensures SafeAt(j, path) {
      }
    }
  }

  /** No key above the end of the path is sensitive. */
  predicate OpenPath(j: Json, path: seq<nat>, names: set<string>)
    decreases |path|
  {
    path != [] ==>
      match j
      case List(items) => path[0] < |items| && OpenPath(items[path[0]], path[1..], names)
      case Object(entries) =>
        && path[0] < |entries| && !KeyIn(entries[path[0]].key, names)
        && OpenPath(entries[path[0]].value, path[1..], names)
      case _ => false
  }

  /** The same keys, and `[redacted]` under each that is sensitive in any letter case. */
  predicate RedactedEntries(before: seq<Entry>, after: seq<Entry>, names: set<string>) {
    && |after| == |before|
    && (forall i :: 0 <= i < |before| ==> after[i].key == before[i].key)
    && (forall i :: 0 <= i < |before| && before[i].key.Text? && (exists name :: name in names && SameLetters(before[i].key.text, name)) ==>
          after[i].value == Scalar("[redacted]"))
  }

  /** Redaction at a path: below open keys the value under a sensitive key, in any letter
      case, becomes `[redacted]`, keys and every scalar stay, and lists and mappings keep
      their size. */
  lemma {:induction false} RedactedAt(j: Json, path: seq<nat>, names: set<string>)
    requires OpenPath(j, path, names) && forall name :: name in names ==> NoCapitals(name)
    ensures At(j, path).Some? && At(Redact(j, names), path).Some?
    ensures var before, after := At(j, path).value, At(Redact(j, names), path).value;
      && (before.Scalar? || before.Null? || before.Opaque? ==> after == before)
      && (before.List? ==> after.List? && |after.items| == |before.items|)
      && (before.Object? ==> after.Object? && RedactedEntries(before.entries, after.entries, names))
    decreases |path|
  {
    if path == [] {
      if j.Object? {
        forall i | 0 <= i < |j.entries|
          ensures j.entries[i].key.Text? && (exists name :: name in names && SameLetters(j.entries[i].key.text, name)) ==>
            Redact(j, names).entries[i].value == Scalar("[redacted]")
        {
          KeyInExactly(j.entries[i].key, names);
        }
      }
    } else {
      match j {
        case List(items) => RedactedAt(items[path[0]], path[1..], names);
        case Object(entries) => RedactedAt(entries[path[0]].value, path[1..], names);
      }
    }
  }
}
