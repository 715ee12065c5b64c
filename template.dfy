/** The template engine (index.js:38-161): `recursive` walks a template,
    `handle_object` resolves one object level key by key, and
    `handle_mockjs_syntax` resolves one `name|rule` key. Mock.js and the
    generator functions are oracles. Values are modelled as immutable
    trees, so each in-place update of the source becomes a new value. */
module Template {
  import opened Strings
  import opened KeyOrder
  import opened Json
  import opened RequestContext

  /** `Mock.mock({key: value})[name]`, and `fn.call(root, {_req, Mock})`
      for the generator function numbered `id`. */
  datatype Oracles = Oracles(mock: (string, Node) -> Node, call: (nat, Context) -> Node)

  /** An object whose values are all `""`, as built at index.js:60-64. */
  ghost predicate IsPlaceholder(ph: map<string, Node>) {
    forall k | k in ph :: ph[k] == Leaf(Str(""))
  }

  /** `x` is an index marker of an array of length `n`. */
  predicate IsMarker(x: Node, n: nat) {
    x.Leaf? && x.p.Num? && 0 <= x.p.n < n
  }

  /** What the engine takes for granted about Mock.js and the generators:
      neither returns a function; for a placeholder object Mock.js returns
      an object of scalars on some of its keys; for an array of markers it
      returns either an array of markers, each at most its own position (as
      the repetition rules produce), or something else that is not an
      array. */
  ghost predicate ValidOracles(o: Oracles) {
    && (forall key, n :: FnFree(o.mock(key, n)))
    && (forall id, ctx :: FnFree(o.call(id, ctx)))
    && (forall key, ph | IsPlaceholder(ph) :: PickedNames(o.mock(key, Obj(ph)), ph))
    && (forall key, n: nat :: PickedMarkers(o.mock(key, Arr(MarkerSeq(n))), n))
  }

  /** What Mock.js returns for a placeholder object: an object of scalars on
      some of the placeholder's names. */
  ghost predicate PickedNames(out: Node, ph: map<string, Node>) {
    out.Obj? && out.fields.Keys <= ph.Keys && forall k | k in out.fields :: out.fields[k].Leaf?
  }

  /** What Mock.js returns for `n` markers, when it returns an array: markers
      below `n`, each at most its own position. */
  ghost predicate PickedMarkers(out: Node, n: nat) {
    out.Arr? ==> forall i | 0 <= i < |out.elems| :: IsMarker(out.elems[i], n) && out.elems[i].p.n <= i
  }

  // ---------------------------------------------------------------------------
  // Keys: `name|rule` (index.js:46-49)

  /** `key.split("|")[0]`: the text before the first `|` (`NameIsFirstPiece`). */
  function Name(key: string): string {
    if key == [] || key[0] == '|' then [] else [key[0]] + Name(key[1..])
  }

  /** The name is the first piece `split` gives. */
  lemma {:induction false} NameIsFirstPiece(key: string)
    ensures Name(key) == Split(key, '|')[0]
  {
    if key != [] && key[0] != '|' {
      NameIsFirstPiece(key[1..]);
    }
  }

  /** The name is a prefix of the key free of `|`, and either the whole key
      or followed by `|`. */
  lemma {:induction false} NameShape(key: string)
    ensures |Name(key)| <= |key| && key[..|Name(key)|] == Name(key)
    ensures '|' !in Name(key)
    ensures Name(key) == key || key[|Name(key)|] == '|'
  {
    if key != [] && key[0] != '|' {
      NameShape(key[1..]);
      assert key == [key[0]] + key[1..];
    }
  }

  /** `key.split("|")[1]`, trimmed; "" when there is none. */
  function Rule(key: string): string {
    Trim(Name(AfterBar(key)))
  }

  /** The text after the first `|`; empty when there is none. */
  function AfterBar(key: string): string {
    if key == [] then [] else if key[0] == '|' then key[1..] else AfterBar(key[1..])
  }

  /** The rule is the trimmed second piece `split` gives, or "" without one. */
  lemma {:induction false} RuleIsSecondPiece(key: string)
    ensures var parts := Split(key, '|');
      Rule(key) == if |parts| >= 2 then Trim(parts[1]) else ""
  {
    if key == [] {
    } else if key[0] == '|' {
      NameIsFirstPiece(key[1..]);
    } else {
      RuleIsSecondPiece(key[1..]);
    }
  }

  /** `if (rule)`: a rule that is present and not blank. */
  predicate HasRule(key: string) {
    Rule(key) != ""
  }

  /** Text without `|` is its own name and has nothing after a bar. */
  lemma {:induction false} NameFree(s: string)
    requires '|' !in s
    ensures Name(s) == s && AfterBar(s) == []
  {
    if s != [] {
      assert '|' !in s[1..];
      NameFree(s[1..]);
      assert s == [s[0]] + s[1..];
    }
  }

  /** The first `|` splits a key into its name and what follows. */
  lemma {:induction false} NameBeforeBar(a: string, b: string)
    requires '|' !in a
    ensures Name(a + "|" + b) == a && AfterBar(a + "|" + b) == b
  {
    if a == [] {
      assert a + "|" + b == "|" + b;
      assert ("|" + b)[1..] == b;
    } else {
      assert (a + "|" + b)[1..] == a[1..] + "|" + b;
      assert '|' !in a[1..];
      NameBeforeBar(a[1..], b);
      assert a == [a[0]] + a[1..];
    }
  }

  /** The name is the first piece and the rule the trimmed second piece;
      what follows a second `|` is dropped. */
  lemma KeyParts(name: string, rule: string, tail: string)
    requires '|' !in name && '|' !in rule
    requires tail == "" || tail[0] == '|'
    ensures Name(name + "|" + rule + tail) == name
    ensures Rule(name + "|" + rule + tail) == Trim(rule)
  {
    assert name + "|" + rule + tail == name + "|" + (rule + tail);
    NameBeforeBar(name, rule + tail);
    if tail == "" {
      assert rule + tail == rule;
      NameFree(rule);
    } else {
      assert rule + tail == rule + "|" + tail[1..];
      NameBeforeBar(rule, tail[1..]);
    }
  }

  /** A key without `|` is its own name and has no rule. */
  lemma PlainKey(key: string)
    requires '|' !in key
    ensures Name(key) == key && !HasRule(key)
  {
    NameFree(key);
    NameFree([]);
  }

  /** A decorated key sorts strictly after its name. */
  lemma NameBefore(key: string)
    requires Name(key) != key
    ensures LexLess(Name(key), key)
  {
    NameShape(key);
    LexPrefix(Name(key), key);
  }

  // ---------------------------------------------------------------------------
  // The key order of `handle_object` (index.js:112-122)

  /** The comparator's later group: the keys holding a function. */
  function FnKeys(m: map<string, Node>): set<string> {
    set k | k in m && m[k].Fn?
  }

  /** The snapshot of keys `handle_object` walks: the keys of `m`, each
      once (`ProcessingOrderDistinct`). */
  function ProcessingOrder(m: map<string, Node>): (order: seq<string>)
    ensures |order| == |m|
    ensures forall i | 0 <= i < |order| :: order[i] in m
    ensures forall k | k in m :: k in order
  {
    Sort(m.Keys, FnKeys(m))
  }

  lemma ProcessingOrderDistinct(m: map<string, Node>, i: nat, j: nat)
    requires i < j < |ProcessingOrder(m)|
    ensures ProcessingOrder(m)[i] != ProcessingOrder(m)[j]
  {
    SortDistinct(m.Keys, FnKeys(m), i, j);
  }

  /** The comparator of index.js:112-122: every non-function key comes
      before every function key, and each group is in strictly ascending
      key order. */
  lemma ProcessingOrderSorted(m: map<string, Node>)
    ensures forall i, j | 0 <= i < j < |ProcessingOrder(m)| ::
      !m[ProcessingOrder(m)[i]].Fn? || m[ProcessingOrder(m)[j]].Fn?
    ensures forall i, j | 0 <= i < j < |ProcessingOrder(m)|
        && m[ProcessingOrder(m)[i]].Fn? == m[ProcessingOrder(m)[j]].Fn? ::
      LexLess(ProcessingOrder(m)[i], ProcessingOrder(m)[j])
  {
    var order := ProcessingOrder(m);
    SortOrdered(m.Keys, FnKeys(m));
    forall i, j | 0 <= i < j < |order|
      ensures !m[order[i]].Fn? || m[order[j]].Fn?
      ensures m[order[i]].Fn? == m[order[j]].Fn? ==> LexLess(order[i], order[j])
    {
      assert Before(FnKeys(m), order[i], order[j]);
    }
  }

  /** Where `k` stands in the processing order. */
  ghost function Position(m: map<string, Node>, k: string): (p: nat)
    requires k in m
    ensures p < |ProcessingOrder(m)| && ProcessingOrder(m)[p] == k
  {
    var order := ProcessingOrder(m);
    var p :| 0 <= p < |order| && order[p] == k;
    p
  }

  /** A key whose name is a later key of the order lost the comparison on
      the group alone: it is a non-function key and the later one holds a
      function. */
  lemma NameComesLater(m: map<string, Node>, i: nat)
    requires i < |ProcessingOrder(m)|
    ensures forall j | i < j < |ProcessingOrder(m)| && ProcessingOrder(m)[j] == Name(ProcessingOrder(m)[i])
        && Name(ProcessingOrder(m)[i]) != ProcessingOrder(m)[i] ::
      m[ProcessingOrder(m)[j]].Fn? && !m[ProcessingOrder(m)[i]].Fn?
  {
    var order := ProcessingOrder(m);
    ProcessingOrderSorted(m);
    forall j | i < j < |order| && order[j] == Name(order[i]) && Name(order[i]) != order[i]
      ensures m[order[j]].Fn? && !m[order[i]].Fn?
    {
      NameBefore(order[i]);
      if m[order[i]].Fn? == m[order[j]].Fn? {
        LexAsymmetric(order[j], order[i]);
      }
    }
  }

  // ---------------------------------------------------------------------------
  // Placeholders and their restoration

  /** `name_key_mapping` after the first `i` keys of `keys` (index.js:60-64):
      `name_key_mapping[value_name] = value_key`, one key after another. */
  function MappingOf(keys: seq<string>, i: nat): map<string, string>
    requires i <= |keys|
  {
    if i == 0 then map[] else MappingOf(keys, i - 1)[Name(keys[i - 1]) := keys[i - 1]]
  }

  /** Every name seen so far is mapped, to one of the keys carrying it. */
  lemma {:induction false} MappingOfNames(keys: seq<string>, i: nat)
    requires i <= |keys|
    ensures forall j | 0 <= j < i :: Name(keys[j]) in MappingOf(keys, i)
    ensures forall b | b in MappingOf(keys, i) ::
      Name(MappingOf(keys, i)[b]) == b && MappingOf(keys, i)[b] in keys
  {
    if i > 0 {
      MappingOfNames(keys, i - 1);
    }
  }

  /** Over ascending keys the last write wins: a name maps to the greatest
      key carrying it. */
  lemma {:induction false} MappingOfLast(keys: seq<string>, i: nat, j: nat)
    requires i <= |keys|
    requires forall a, b | 0 <= a < b < |keys| :: LexLess(keys[a], keys[b])
    requires j < i
    ensures var mapping := MappingOf(keys, i);
      Name(keys[j]) in mapping
      && (keys[j] == mapping[Name(keys[j])] || LexLess(keys[j], mapping[Name(keys[j])]))
  {
    if j < i - 1 {
      MappingOfLast(keys, i - 1, j);
      if Name(keys[j]) == Name(keys[i - 1]) {
        assert LexLess(keys[j], keys[i - 1]);
      }
    }
  }

  /** `name_key_mapping` for the object `v`, its keys taken in ascending
      order (`NameKeyMappingNames`, `NameKeyMappingGreatest`). */
  function NameKeyMapping(v: map<string, Node>): map<string, string> {
    var keys := Sort(v.Keys, {});
    MappingOf(keys, |keys|)
  }

  /** Every inner name is mapped, to a key of `v` carrying it. */
  lemma NameKeyMappingNames(v: map<string, Node>)
    ensures forall k | k in v :: Name(k) in NameKeyMapping(v)
    ensures forall b | b in NameKeyMapping(v) ::
      NameKeyMapping(v)[b] in v && Name(NameKeyMapping(v)[b]) == b
  {
    var keys := Sort(v.Keys, {});
    MappingOfNames(keys, |keys|);
  }

  /** The key a name maps to is the greatest key of `v` carrying it. */
  lemma NameKeyMappingGreatest(v: map<string, Node>, k: string)
    requires k in v
    ensures var mapping := NameKeyMapping(v);
      Name(k) in mapping && (k == mapping[Name(k)] || LexLess(k, mapping[Name(k)]))
  {
    var keys := Sort(v.Keys, {});
    SortAscending(v.Keys);
    assert forall a, b | 0 <= a < b < |keys| :: LexLess(keys[a], keys[b]);
    var i :| 0 <= i < |keys| && keys[i] == k;
    MappingOfLast(keys, |keys|, i);
  }

  /** A plain key listing is strictly ascending. */
  lemma SortAscending(ks: set<string>)
    ensures forall i, j | 0 <= i < j < |Sort(ks, {})| ::
      LexLess(Sort(ks, {})[i], Sort(ks, {})[j])
  {
    var keys := Sort(ks, {});
    SortOrdered(ks, {});
    forall i, j | 0 <= i < j < |keys| ensures LexLess(keys[i], keys[j]) {
      assert Before({}, keys[i], keys[j]);
    }
  }

  /** `placeholder_value`: every inner name mapped to `""`. */
  function Placeholder(v: map<string, Node>): map<string, Node> {
    Blank(NameKeyMapping(v))
  }

  /** The placeholder holds exactly the inner names, each mapped to `""`. */
  lemma PlaceholderNames(v: map<string, Node>)
    ensures IsPlaceholder(Placeholder(v))
    ensures forall k | k in v :: Name(k) in Placeholder(v)
    ensures forall b | b in Placeholder(v) :: exists k | k in v :: Name(k) == b
  {
    var mapping := NameKeyMapping(v);
    NameKeyMappingNames(v);
    forall b | b in Placeholder(v) ensures exists k | k in v :: Name(k) == b {
      assert mapping[b] in v && Name(mapping[b]) == b;
    }
  }

  /** The names of `mapping`, each mapped to `""`. */
  function Blank(mapping: map<string, string>): (ph: map<string, Node>)
    ensures ph.Keys == mapping.Keys && IsPlaceholder(ph)
  {
    map b | b in mapping :: Leaf(Str(""))
  }

  /** One key of the `forEach` of index.js:60-64. */
  lemma FillStep(keys: seq<string>, i: nat)
    requires i < |keys|
    ensures var mapping := MappingOf(keys, i);
      && MappingOf(keys, i + 1) == mapping[Name(keys[i]) := keys[i]]
      && Blank(mapping[Name(keys[i]) := keys[i]]) == Blank(mapping)[Name(keys[i]) := Leaf(Str(""))]
  {
  }

  /** The keys restored for the names `bs`. */
  function Image(mapping: map<string, string>, bs: set<string>): set<string> {
    set b | b in bs && b in mapping :: mapping[b]
  }

  /** `filtered` after `filtered[mapping[b]] = v[mapping[b]]` for every `b`
      of `bs` (index.js:70-74). */
  function RestoreKeysOf(v: map<string, Node>, mapping: map<string, string>,
                         filtered: map<string, Node>, bs: set<string>): map<string, Node>
    requires forall b | b in mapping :: mapping[b] in v
  {
    map k | k in filtered.Keys + Image(mapping, bs) ::
      if k in Image(mapping, bs) then v[k] else filtered[k]
  }

  /** The restored keys get their original values; every other key keeps
      what Mock.js gave it. */
  lemma RestoreKeysOfShape(v: map<string, Node>, mapping: map<string, string>,
                           filtered: map<string, Node>, bs: set<string>)
    requires forall b | b in mapping :: mapping[b] in v
    ensures RestoreKeysOf(v, mapping, filtered, bs).Keys == filtered.Keys + Image(mapping, bs)
    ensures forall b | b in bs && b in mapping ::
      RestoreKeysOf(v, mapping, filtered, bs)[mapping[b]] == v[mapping[b]]
    ensures forall k | k in filtered && k !in Image(mapping, bs) ::
      RestoreKeysOf(v, mapping, filtered, bs)[k] == filtered[k]
  {
  }

  /** The restoration of all the names Mock.js kept. */
  function Restored(v: map<string, Node>, filtered: map<string, Node>): map<string, Node> {
    NameKeyMappingNames(v);
    RestoreKeysOf(v, NameKeyMapping(v), filtered, filtered.Keys)
  }

  /** What the restoration writes is a scalar from Mock.js or a value of the
      object. */
  lemma RestoredParts(v: map<string, Node>, filtered: map<string, Node>)
    requires forall k | k in filtered :: filtered[k].Leaf?
    ensures forall k | k in Restored(v, filtered) ::
      Restored(v, filtered)[k].Leaf? || Restored(v, filtered)[k] in v.Values
  {
    NameKeyMappingNames(v);
    RestoreKeysOfShape(v, NameKeyMapping(v), filtered, filtered.Keys);
  }

  /** Index markers `[0, …, n-1]` (index.js:80-83). */
  function MarkerSeq(n: nat): seq<Node> {
    seq(n, i requires 0 <= i < n => Leaf(Num(i)))
  }

  /** The array Mock.js returned with each marker replaced by the element it
      names: `filtered[i] = value[filtered[i]]`. */
  function RestoreElements(value: seq<Node>, fs: seq<Node>): (r: seq<Node>)
    requires forall i | 0 <= i < |fs| :: IsMarker(fs[i], |value|)
    ensures |r| == |fs|
    ensures forall i | 0 <= i < |fs| && IsMarker(fs[i], |value|) :: r[i] == value[fs[i].p.n]
  {
    seq(|fs|, i requires 0 <= i < |fs| && IsMarker(fs[i], |value|) => value[fs[i].p.n])
  }

  /** Some marker of `fs` names position `p`. */
  ghost predicate Named(fs: seq<Node>, p: nat) {
    exists j | 0 <= j < |fs| :: fs[j] == Leaf(Num(p))
  }

  /** The same among the first `i` markers. */
  ghost predicate NamedBefore(fs: seq<Node>, i: nat, p: nat)
    requires i <= |fs|
  {
    exists j | 0 <= j < i :: fs[j] == Leaf(Num(p))
  }

  /** The array the loop of index.js:88 leaves, where each marker `m` read
      writes the original element `m` to position `m`: a position named by
      some marker holds the original element at that position, and every
      other position keeps its marker. Nothing is fabricated: each element
      is a marker or an original element. */
  ghost function AsWrittenRestore(value: seq<Node>, fs: seq<Node>): (r: seq<Node>)
    requires forall i | 0 <= i < |fs| :: IsMarker(fs[i], |value|)
    ensures |r| == |fs|
    ensures forall p | 0 <= p < |r| :: r[p].Leaf? || r[p] in value
  {
    var r := seq(|fs|, p requires 0 <= p < |fs| =>
      if Named(fs, p) then NamedElement(value, fs, p) else fs[p]);
    assert forall p | 0 <= p < |r| :: r[p].Leaf? || r[p] in value by {
      forall p | 0 <= p < |r| ensures r[p].Leaf? || r[p] in value {
        if Named(fs, p) {
          assert r[p] == NamedElement(value, fs, p);
        } else {
          assert IsMarker(fs[p], |value|);
        }
      }
    }
    r
  }

  ghost function NamedElement(value: seq<Node>, fs: seq<Node>, p: nat): (e: Node)
    requires forall i | 0 <= i < |fs| :: IsMarker(fs[i], |value|)
    requires Named(fs, p)
    ensures p < |value| && e == value[p]
  {
    var j :| 0 <= j < |fs| && fs[j] == Leaf(Num(p));
    assert IsMarker(fs[j], |value|);
    value[p]
  }

  /** Markers `[0, 0]` over a one-element array: the code as written keeps
      the second marker, where each position was meant to get the element
      its marker names. */
  lemma AsWrittenKeepsMarker(x: Node)
    ensures AsWrittenRestore([x], [Leaf(Num(0)), Leaf(Num(0))]) == [x, Leaf(Num(0))]
    ensures RestoreElements([x], [Leaf(Num(0)), Leaf(Num(0))]) == [x, x]
  {
    var fs := [Leaf(Num(0)), Leaf(Num(0))];
    assert fs[0] == Leaf(Num(0));
    assert !Named(fs, 1);
  }

  /** Markers `[0 .. k-1]`, as for a rule that keeps the first `k` elements:
      the prefix of that length, by either restoration. */
  lemma RestorePrefix(value: seq<Node>, k: nat)
    requires k <= |value|
    ensures AsWrittenRestore(value, MarkerSeq(k)) == value[..k]
    ensures RestoreElements(value, MarkerSeq(k)) == value[..k]
  {
    var fs := MarkerSeq(k);
    forall p | 0 <= p < k ensures Named(fs, p) {
      assert fs[p] == Leaf(Num(p));
    }
  }

  // ---------------------------------------------------------------------------
  // The engine as a specification. The measure: whether a function is left
  // inside, then the depth, then the stage (key, node, object, step).

  ghost function RankFn(n: Node): nat {
    if HasFn(n) then 1 else 0
  }

  /** A value not yet processed at some step: the original one, or, for a
      function value, a finished value a sibling wrote under its key. */
  ghost predicate PendingValue(m: map<string, Node>, k: string, v: Node)
    requires k in m
  {
    v == m[k] || (m[k].Fn? && FnFree(v))
  }

  /** The key at position `j` of the order is still in `r` with a pending
      value. */
  ghost predicate PendingAt(m: map<string, Node>, r: map<string, Node>, j: int) {
    0 <= j < |ProcessingOrder(m)| && ProcessingOrder(m)[j] in r
    && PendingValue(m, ProcessingOrder(m)[j], r[ProcessingOrder(m)[j]])
  }

  /** If `k` is a key of `r`, its value is finished or its key comes at
      position `i` or later of the order. */
  ghost predicate SettledAt(m: map<string, Node>, r: map<string, Node>, i: int, k: string) {
    k in r ==> FnFree(r[k]) || (k in m && Position(m, k) >= i)
  }

  /** Once every key has had its step, every value is finished. */
  lemma FinalSettled(m: map<string, Node>, r: map<string, Node>)
    requires forall k :: SettledAt(m, r, |ProcessingOrder(m)|, k)
    ensures forall k | k in r :: FnFree(r[k])
  {
    forall k | k in r ensures FnFree(r[k]) {
      assert SettledAt(m, r, |ProcessingOrder(m)|, k);
    }
  }

  /** `recursive(val)` (index.js:139-161). */
  ghost function ResolveNode(o: Oracles, ctx: Context, n: Node): (r: Node)
    requires ValidOracles(o)
    ensures FnFree(r)
    decreases RankFn(n), Depth(n), 2, 0
  {
    match n
    case Leaf(_) => n
    case Fn(id) => o.call(id, ctx)
    case Obj(m) => Obj(ResolveObject(o, ctx, m))
    case Arr(s) =>
      assert forall i | 0 <= i < |s| :: Depth(s[i]) < Depth(n) && RankFn(s[i]) <= RankFn(n) by {
        forall i | 0 <= i < |s| ensures Depth(s[i]) < Depth(n) && RankFn(s[i]) <= RankFn(n) {
          ElementBelow(s, i);
        }
      }
      Arr(seq(|s|, i requires 0 <= i < |s| => ResolveNode(o, ctx, s[i])))
  }

  /** `handle_object(val)` (index.js:110-131): every key of the order, in turn. */
  ghost function ResolveObject(o: Oracles, ctx: Context, m: map<string, Node>): (r: map<string, Node>)
    requires ValidOracles(o)
    ensures forall k | k in r :: FnFree(r[k])
    decreases RankFn(Obj(m)), Depth(Obj(m)), 1, 0
  {
    var r := Prefix(o, ctx, m, |ProcessingOrder(m)|);
    FinalSettled(m, r);
    r
  }

  /** `val[key] = value`, then `delete val[org_key]` when the key was decorated. */
  function Store(val: map<string, Node>, orgKey: string, value: Node): map<string, Node> {
    var w := val[Name(orgKey) := value];
    if Name(orgKey) == orgKey then w else w - {orgKey}
  }

  /** The object after the first `i` keys of the order were processed. The
      keys still to come are present with their pending values; every other
      value is finished. */
  ghost function Prefix(o: Oracles, ctx: Context, m: map<string, Node>, i: nat): (r: map<string, Node>)
    requires ValidOracles(o)
    requires i <= |ProcessingOrder(m)|
    ensures forall j | i <= j < |ProcessingOrder(m)| :: ProcessingOrder(m)[j] in r
    ensures forall j | i <= j < |ProcessingOrder(m)| :: PendingAt(m, r, j)
    ensures forall k :: SettledAt(m, r, i, k)
    decreases RankFn(Obj(m)), Depth(Obj(m)), 0, i
  {
    if i == 0 then m
    else
      var order := ProcessingOrder(m);
      var st := Prefix(o, ctx, m, i - 1);
      var k := order[i - 1];
      FieldBelow(m, k);
      assert PendingAt(m, st, i - 1);
      var out := ResolveKey(o, ctx, k, st[k]);
      StoreKeepsInvariant(m, i - 1, i, st, out);
      Store(st, k, out)
  }

  /** One step of `handle_object` keeps the invariant of `Prefix`: a key's
      result is stored under its name, and a name that is still to come is
      a function key overwritten with a finished value. */
  lemma StoreKeepsInvariant(m: map<string, Node>, n: nat, i: nat, st: map<string, Node>, out: Node)
    requires i == n + 1 <= |ProcessingOrder(m)|
    requires forall j | n <= j < |ProcessingOrder(m)| :: ProcessingOrder(m)[j] in st
    requires forall j | n <= j < |ProcessingOrder(m)| :: PendingAt(m, st, j)
    requires forall k :: SettledAt(m, st, n, k)
    requires FnFree(out)
    ensures var r := Store(st, ProcessingOrder(m)[n], out);
      && (forall j | i <= j < |ProcessingOrder(m)| :: ProcessingOrder(m)[j] in r)
      && (forall j | i <= j < |ProcessingOrder(m)| :: PendingAt(m, r, j))
      && (forall k :: SettledAt(m, r, i, k))
  {
    var order := ProcessingOrder(m);
    var k := order[n];
    var r := Store(st, k, out);
    NameComesLater(m, n);
    forall j | i <= j < |order|
      ensures order[j] in r && PendingAt(m, r, j)
    {
      assert PendingAt(m, st, j);
      ProcessingOrderDistinct(m, n, j);
    }
    forall x ensures SettledAt(m, r, i, x) {
      assert SettledAt(m, st, n, x);
      if x in r && x != Name(k) {
        assert x in st && r[x] == st[x];
        if !FnFree(st[x]) {
          assert x != k;
        }
      }
    }
  }

  /** `handle_mockjs_syntax(key, value).value` (index.js:45-104). */
  ghost function ResolveKey(o: Oracles, ctx: Context, key: string, v: Node): (r: Node)
    requires ValidOracles(o)
    ensures FnFree(r)
    decreases RankFn(v), Depth(v), 4, 0
  {
    match v
    case Fn(_) => ResolveNode(o, ctx, v)
    case Obj(fields) =>
      if HasRule(key) then ResolveRuleObject(o, ctx, key, fields)
      else ResolveNode(o, ctx, v)
    case Arr(s) => ResolveRuleArray(o, ctx, key, s)
    case Leaf(_) => o.mock(key, v)
  }

  /** An object under a rule (index.js:57-77): Mock.js picks among the
      placeholder's names, the picked keys get their values back, and the
      result is resolved. */
  ghost function ResolveRuleObject(o: Oracles, ctx: Context, key: string, fields: map<string, Node>): (r: Node)
    requires ValidOracles(o)
    ensures FnFree(r)
    decreases RankFn(Obj(fields)), Depth(Obj(fields)), 3, 0
  {
    PlaceholderNames(fields);
    var out := o.mock(key, Obj(Placeholder(fields)));
    var f := Restored(fields, out.fields);
    RestoredParts(fields, out.fields);
    ObjectFromParts(f, fields);
    ResolveNode(o, ctx, Obj(f))
  }

  /** An array (index.js:78-101): Mock.js works on index markers; an array
      of markers gets elements back as the loop of index.js:88 restores
      them, a single marker gives the element it names, anything else gives
      `undefined`. */
  ghost function ResolveRuleArray(o: Oracles, ctx: Context, key: string, s: seq<Node>): (r: Node)
    requires ValidOracles(o)
    ensures FnFree(r)
    decreases RankFn(Arr(s)), Depth(Arr(s)), 3, 0
  {
    var out := o.mock(key, Arr(MarkerSeq(|s|)));
    if out.Arr? then
      var t := AsWrittenRestore(s, out.elems);
      ArrayFromParts(t, s);
      ResolveNode(o, ctx, Arr(t))
    else if IsMarker(out, |s|) then
      ElementBelow(s, out.p.n);
      ResolveNode(o, ctx, s[out.p.n])
    else Leaf(Undefined)
  }

  // ---------------------------------------------------------------------------
  // Properties of the engine

  /** The keys left after storing under the names of `order[..n]` in turn,
      starting from `keys`: what `Store` does to the set of keys. */
  function KeysAfter(keys: set<string>, order: seq<string>, n: nat): set<string>
    requires n <= |order|
  {
    if n == 0 then keys else KeysStep(KeysAfter(keys, order, n - 1), order[n - 1])
  }

  /** The keys after `val[name] = value` and, for a decorated key, `delete val[key]`. */
  function KeysStep(keys: set<string>, k: string): set<string> {
    if Name(k) == k then keys + {Name(k)} else keys + {Name(k)} - {k}
  }

  /** Storing under the names of a listing of all the keys leaves exactly
      their names. */
  lemma KeysAfterAll(keys: set<string>, order: seq<string>)
    requires forall i | 0 <= i < |order| :: order[i] in keys
    requires forall k | k in keys :: k in order
    ensures KeysAfter(keys, order, |order|) == set k | k in keys :: Name(k)
  {
    KeysAfterBound(keys, order, |order|);
    KeysAfterNames(keys, order, |order|);
    var target := set k | k in keys :: Name(k);
    assert order[..|order|] == order;
    forall x | x in KeysAfter(keys, order, |order|) ensures x in target {
      var j :| 0 <= j < |order| && Name(order[j]) == x;
    }
    forall k | k in keys ensures Name(k) in KeysAfter(keys, order, |order|) {
      var j :| 0 <= j < |order| && order[j] == k;
    }
  }

  /** The names of `order[..n]`. */
  function NamesOf(order: seq<string>, n: nat): set<string>
    requires n <= |order|
  {
    set j | 0 <= j < n :: Name(order[j])
  }

  /** Every key left after `n` steps is a name written so far, or an
      original key not processed yet. */
  lemma {:induction false} KeysAfterBound(keys: set<string>, order: seq<string>, n: nat)
    requires n <= |order|
    ensures forall x | x in KeysAfter(keys, order, n) ::
      x in NamesOf(order, n) || (x in keys && x !in order[..n])
  {
    if n > 0 {
      KeysAfterBound(keys, order, n - 1);
      assert order[..n] == order[..n - 1] + [order[n - 1]];
      assert NamesOf(order, n) == NamesOf(order, n - 1) + {Name(order[n - 1])};
    }
  }

  /** Every name written in the first `n` steps is still there: a deleted
      key holds a `|` and no name does. */
  lemma {:induction false} KeysAfterNames(keys: set<string>, order: seq<string>, n: nat)
    requires n <= |order|
    ensures forall j | 0 <= j < n :: Name(order[j]) in KeysAfter(keys, order, n)
  {
    if n > 0 {
      KeysAfterNames(keys, order, n - 1);
      var k := order[n - 1];
      if Name(k) != k {
        NameShape(k);
        forall j | 0 <= j < n ensures Name(order[j]) != k {
          NameShape(order[j]);
        }
      }
    }
  }

  /** `Store` changes the set of keys as `KeysStep` does. */
  lemma StoreKeys(val: map<string, Node>, orgKey: string, value: Node)
    ensures Store(val, orgKey, value).Keys == KeysStep(val.Keys, orgKey)
  {
  }

  /** `Store` leaves every other key as it was. */
  lemma StoreKeepsOther(val: map<string, Node>, orgKey: string, value: Node, b: string)
    requires b != Name(orgKey) && b != orgKey
    ensures b in Store(val, orgKey, value) <==> b in val
    ensures b in val ==> Store(val, orgKey, value)[b] == val[b]
  {
  }

  /** One step of `handle_object`. */
  lemma PrefixKeysStep(o: Oracles, ctx: Context, m: map<string, Node>, n: nat)
    requires ValidOracles(o)
    requires n < |ProcessingOrder(m)|
    ensures Prefix(o, ctx, m, n + 1).Keys == KeysStep(Prefix(o, ctx, m, n).Keys, ProcessingOrder(m)[n])
  {
    PrefixStep(o, ctx, m, n);
    var k := ProcessingOrder(m)[n];
    var st := Prefix(o, ctx, m, n);
    StoreKeys(st, k, ResolveKey(o, ctx, k, st[k]));
  }

  /** `handle_object` leaves exactly the names of the original keys. */
  lemma ResolveObjectKeys(o: Oracles, ctx: Context, m: map<string, Node>)
    requires ValidOracles(o)
    ensures ResolveObject(o, ctx, m).Keys == set k | k in m :: Name(k)
  {
    PrefixKeys(o, ctx, m, |ProcessingOrder(m)|);
    KeysAfterAll(m.Keys, ProcessingOrder(m));
    ResolveObjectIsFinal(o, ctx, m);
  }

  /** After `n` steps the keys are those `KeysAfter` lists. */
  lemma {:induction false} PrefixKeys(o: Oracles, ctx: Context, m: map<string, Node>, n: nat)
    requires ValidOracles(o)
    requires n <= |ProcessingOrder(m)|
    ensures Prefix(o, ctx, m, n).Keys == KeysAfter(m.Keys, ProcessingOrder(m), n)
  {
    if n > 0 {
      PrefixKeys(o, ctx, m, n - 1);
      PrefixKeysStep(o, ctx, m, n - 1);
    }
  }

  /** One step that writes another name leaves a bare name as it was. */
  lemma KeepNameStep(o: Oracles, ctx: Context, m: map<string, Node>, n: nat, b: string)
    requires ValidOracles(o)
    requires n < |ProcessingOrder(m)|
    requires b in Prefix(o, ctx, m, n) && '|' !in b
    requires Name(ProcessingOrder(m)[n]) != b
    ensures b in Prefix(o, ctx, m, n + 1) && Prefix(o, ctx, m, n + 1)[b] == Prefix(o, ctx, m, n)[b]
  {
    PrefixStep(o, ctx, m, n);
    var k := ProcessingOrder(m)[n];
    NameFree(b);
    var st := Prefix(o, ctx, m, n);
    StoreKeepsOther(st, k, ResolveKey(o, ctx, k, st[k]), b);
  }

  /** The last key of the order with a given name decides the value under
      that name: its result, from the value it found when its turn came. */
  lemma LastWriterWins(o: Oracles, ctx: Context, m: map<string, Node>, i: nat)
    requires ValidOracles(o)
    requires i < |ProcessingOrder(m)|
    requires forall j | i < j < |ProcessingOrder(m)| ::
      Name(ProcessingOrder(m)[j]) != Name(ProcessingOrder(m)[i])
    ensures Name(ProcessingOrder(m)[i]) in ResolveObject(o, ctx, m)
    ensures ResolveObject(o, ctx, m)[Name(ProcessingOrder(m)[i])]
         == ResolveKey(o, ctx, ProcessingOrder(m)[i], Prefix(o, ctx, m, i)[ProcessingOrder(m)[i]])
  {
    WrittenAtStep(o, ctx, m, i);
    KeptAfterStep(o, ctx, m, i);
    ResolveObjectIsFinal(o, ctx, m);
  }

  /** The object `handle_object` returns is the one after the last step. */
  lemma ResolveObjectIsFinal(o: Oracles, ctx: Context, m: map<string, Node>)
    requires ValidOracles(o)
    ensures ResolveObject(o, ctx, m) == Prefix(o, ctx, m, |ProcessingOrder(m)|)
  {
  }

  /** Step `i` stores its result under the name of its key. */
  lemma WrittenAtStep(o: Oracles, ctx: Context, m: map<string, Node>, i: nat)
    requires ValidOracles(o)
    requires i < |ProcessingOrder(m)|
    ensures Name(ProcessingOrder(m)[i]) in Prefix(o, ctx, m, i + 1)
    ensures Prefix(o, ctx, m, i + 1)[Name(ProcessingOrder(m)[i])]
         == ResolveKey(o, ctx, ProcessingOrder(m)[i], Prefix(o, ctx, m, i)[ProcessingOrder(m)[i]])
  {
    PrefixStep(o, ctx, m, i);
  }

  /** After step `i`, no step touches its name when no later key has it. */
  lemma KeptAfterStep(o: Oracles, ctx: Context, m: map<string, Node>, i: nat)
    requires ValidOracles(o)
    requires i < |ProcessingOrder(m)|
    requires forall j | i < j < |ProcessingOrder(m)| ::
      Name(ProcessingOrder(m)[j]) != Name(ProcessingOrder(m)[i])
    requires Name(ProcessingOrder(m)[i]) in Prefix(o, ctx, m, i + 1)
    ensures Name(ProcessingOrder(m)[i]) in Prefix(o, ctx, m, |ProcessingOrder(m)|)
    ensures Prefix(o, ctx, m, |ProcessingOrder(m)|)[Name(ProcessingOrder(m)[i])]
         == Prefix(o, ctx, m, i + 1)[Name(ProcessingOrder(m)[i])]
  {
    var order := ProcessingOrder(m);
    NameShape(order[i]);
    KeptUntil(o, ctx, m, i + 1, Name(order[i]), Prefix(o, ctx, m, i + 1)[Name(order[i])], |order|);
  }

  /** A bare name that no key from step `s` on has keeps its value `v`
      from step `s` through every step up to `t`. */
  lemma KeptUntil(o: Oracles, ctx: Context, m: map<string, Node>, s: nat, b: string, v: Node, t: nat)
    requires ValidOracles(o)
    requires s <= t <= |ProcessingOrder(m)| && '|' !in b
    requires forall j | s <= j < |ProcessingOrder(m)| :: Name(ProcessingOrder(m)[j]) != b
    requires b in Prefix(o, ctx, m, s) && Prefix(o, ctx, m, s)[b] == v
    ensures b in Prefix(o, ctx, m, t) && Prefix(o, ctx, m, t)[b] == v
  {
    var n := s;
    while n < t
      invariant s <= n <= t
      invariant b in Prefix(o, ctx, m, n) && Prefix(o, ctx, m, n)[b] == v
    {
      assert Name(ProcessingOrder(m)[n]) != b;
      KeepNameStep(o, ctx, m, n, b);
      n := n + 1;
    }
    assert n == t;
  }

  /** A key that no other key names keeps its original value until its own
      turn: no step writes it and no other step deletes it. */
  lemma KeyUntouched(o: Oracles, ctx: Context, m: map<string, Node>, k: string, t: nat)
    requires ValidOracles(o)
    requires k in m
    requires forall x | x in m && Name(x) == k :: x == k
    requires t <= Position(m, k)
    ensures k in Prefix(o, ctx, m, t) && Prefix(o, ctx, m, t)[k] == m[k]
  {
    var n := 0;
    while n < t
      invariant n <= t
      invariant k in Prefix(o, ctx, m, n) && Prefix(o, ctx, m, n)[k] == m[k]
    {
      EarlierStepKeepsKey(o, ctx, m, k, n);
      n := n + 1;
    }
  }

  /** A step before `k`'s own leaves `k` as it was when no other key names
      it. */
  lemma EarlierStepKeepsKey(o: Oracles, ctx: Context, m: map<string, Node>, k: string, n: nat)
    requires ValidOracles(o)
    requires k in m
    requires forall x | x in m && Name(x) == k :: x == k
    requires n < Position(m, k)
    requires k in Prefix(o, ctx, m, n)
    ensures k in Prefix(o, ctx, m, n + 1) && Prefix(o, ctx, m, n + 1)[k] == Prefix(o, ctx, m, n)[k]
  {
    var j := ProcessingOrder(m)[n];
    ProcessingOrderDistinct(m, n, Position(m, k));
    assert j in m && j != k;
    KeepKeyStep(o, ctx, m, n, k);
  }

  /** One step whose key neither is `k` nor has the name `k` leaves `k` as
      it was. */
  lemma KeepKeyStep(o: Oracles, ctx: Context, m: map<string, Node>, n: nat, k: string)
    requires ValidOracles(o)
    requires n < |ProcessingOrder(m)|
    requires k in Prefix(o, ctx, m, n)
    requires ProcessingOrder(m)[n] != k && Name(ProcessingOrder(m)[n]) != k
    ensures k in Prefix(o, ctx, m, n + 1) && Prefix(o, ctx, m, n + 1)[k] == Prefix(o, ctx, m, n)[k]
  {
    PrefixStep(o, ctx, m, n);
    var j := ProcessingOrder(m)[n];
    var st := Prefix(o, ctx, m, n);
    StoreKeepsOther(st, j, ResolveKey(o, ctx, j, st[j]), k);
  }

  /** In particular a decorated key keeps its original value until its own
      turn, since no name holds a `|`. */
  lemma DecoratedUntouched(o: Oracles, ctx: Context, m: map<string, Node>, k: string, t: nat)
    requires ValidOracles(o)
    requires k in m && Name(k) != k
    requires t <= Position(m, k)
    ensures k in Prefix(o, ctx, m, t) && Prefix(o, ctx, m, t)[k] == m[k]
  {
    NameShape(k);
    assert '|' in k by { assert k[|Name(k)|] == '|'; }
    forall x | x in m ensures Name(x) != k {
      NameShape(x);
    }
    KeyUntouched(o, ctx, m, k, t);
  }

  /** A decorated key and the bare name it shares with a sibling that is not
      a function, as a rule object leaves them after restoration
      (index.js:70-76): the bare name sorts first, so the decorated key's
      result is what stays. */
  lemma DecoratedOverwritesBase(o: Oracles, ctx: Context, m: map<string, Node>, k: string)
    requires ValidOracles(o)
    requires k in m && Name(k) in m && Name(k) != k
    requires !m[Name(k)].Fn?
    requires forall x | x in m && Name(x) == Name(k) :: x == k || x == Name(k)
    ensures Name(k) in ResolveObject(o, ctx, m)
    ensures ResolveObject(o, ctx, m)[Name(k)] == ResolveKey(o, ctx, k, m[k])
  {
    var order := ProcessingOrder(m);
    var b := Name(k);
    var i := Position(m, k);
    var p := Position(m, b);
    NameBefore(k);
    if p > i {
      ProcessingOrderSorted(m);
      assert !m[order[i]].Fn?;
      assert LexLess(order[i], order[p]);
      LexAsymmetric(b, k);
      assert false;
    }
    forall j | i < j < |order| ensures Name(order[j]) != b {
      ProcessingOrderDistinct(m, i, j);
      if Name(order[j]) == b {
        assert order[j] == b;
        ProcessingOrderDistinct(m, p, j);
        assert false;
      }
    }
    DecoratedUntouched(o, ctx, m, k, i);
    LastWriterWins(o, ctx, m, i);
  }

  /** Once step `j` has run, the name it wrote stays in the object with a
      finished value: every later step writes a finished value and deletes
      only a decorated key, never a name. */
  lemma NameStaysResolved(o: Oracles, ctx: Context, m: map<string, Node>, j: nat, t: nat)
    requires ValidOracles(o)
    requires j < t <= |ProcessingOrder(m)|
    ensures Name(ProcessingOrder(m)[j]) in Prefix(o, ctx, m, t)
    ensures FnFree(Prefix(o, ctx, m, t)[Name(ProcessingOrder(m)[j])])
  {
    var b := Name(ProcessingOrder(m)[j]);
    WrittenAtStep(o, ctx, m, j);
    NameShape(ProcessingOrder(m)[j]);
    var n := j + 1;
    while n < t
      invariant j < n <= t
      invariant b in Prefix(o, ctx, m, n) && FnFree(Prefix(o, ctx, m, n)[b])
    {
      StepKeepsFinished(o, ctx, m, n, b);
      n := n + 1;
    }
    assert n == t;
  }

  /** One step leaves a bare name with a finished value finished. */
  lemma StepKeepsFinished(o: Oracles, ctx: Context, m: map<string, Node>, n: nat, b: string)
    requires ValidOracles(o)
    requires n < |ProcessingOrder(m)|
    requires b in Prefix(o, ctx, m, n) && FnFree(Prefix(o, ctx, m, n)[b]) && '|' !in b
    ensures b in Prefix(o, ctx, m, n + 1) && FnFree(Prefix(o, ctx, m, n + 1)[b])
  {
    if Name(ProcessingOrder(m)[n]) != b {
      KeepNameStep(o, ctx, m, n, b);
    } else {
      WrittenAtStep(o, ctx, m, n);
    }
  }

  /** When a function key's turn comes, every sibling that is not a function
      has had its turn, and its name holds a finished value: what a
      generator reading its siblings through `root` finds (index.js:111-122). */
  lemma FunctionsSeeResolvedSiblings(o: Oracles, ctx: Context, m: map<string, Node>, i: nat)
    requires ValidOracles(o)
    requires i < |ProcessingOrder(m)| && m[ProcessingOrder(m)[i]].Fn?
    ensures forall k | k in m && !m[k].Fn? ::
      && Position(m, k) < i
      && Name(k) in Prefix(o, ctx, m, i)
      && FnFree(Prefix(o, ctx, m, i)[Name(k)])
  {
    ProcessingOrderSorted(m);
    forall k | k in m && !m[k].Fn?
      ensures Position(m, k) < i
      ensures Name(k) in Prefix(o, ctx, m, i) && FnFree(Prefix(o, ctx, m, i)[Name(k)])
    {
      NameStaysResolved(o, ctx, m, Position(m, k), i);
    }
  }

  /** A function value ignores its rule: it is called, and its return is not
      resolved again (index.js:53-54, 152-154). */
  lemma FunctionIgnoresRule(o: Oracles, ctx: Context, key: string, id: nat)
    requires ValidOracles(o)
    ensures ResolveKey(o, ctx, key, Fn(id)) == o.call(id, ctx)
  {
  }

  /** A scalar goes to Mock.js with the whole key (index.js:93-97); `recursive`
      leaves it as it is. */
  lemma ScalarToMock(o: Oracles, ctx: Context, key: string, p: Prim)
    requires ValidOracles(o)
    ensures ResolveKey(o, ctx, key, Leaf(p)) == o.mock(key, Leaf(p))
    ensures ResolveNode(o, ctx, Leaf(p)) == Leaf(p)
  {
  }

  /** An object under a key without a rule is resolved directly (index.js:75-77). */
  lemma PlainObjectResolved(o: Oracles, ctx: Context, key: string, fields: map<string, Node>)
    requires ValidOracles(o)
    requires !HasRule(key)
    ensures ResolveKey(o, ctx, key, Obj(fields)) == Obj(ResolveObject(o, ctx, fields))
  {
  }

  /** The array branch in general (index.js:78-89): the result has the
      length of the array Mock.js returned; a position some marker names
      holds the original element at that position, resolved; any other
      position keeps its marker. */
  lemma RuleArrayResult(o: Oracles, ctx: Context, key: string, s: seq<Node>)
    requires ValidOracles(o)
    requires o.mock(key, Arr(MarkerSeq(|s|))).Arr?
    ensures ResolveKey(o, ctx, key, Arr(s)).Arr?
    ensures |ResolveKey(o, ctx, key, Arr(s)).elems| == |o.mock(key, Arr(MarkerSeq(|s|))).elems|
    ensures forall p | 0 <= p < |o.mock(key, Arr(MarkerSeq(|s|))).elems| ::
      if Named(o.mock(key, Arr(MarkerSeq(|s|))).elems, p)
      then p < |s| && ResolveKey(o, ctx, key, Arr(s)).elems[p] == ResolveNode(o, ctx, s[p])
      else ResolveKey(o, ctx, key, Arr(s)).elems[p] == o.mock(key, Arr(MarkerSeq(|s|))).elems[p]
  {
    var fs := o.mock(key, Arr(MarkerSeq(|s|))).elems;
    assert PickedMarkers(o.mock(key, Arr(MarkerSeq(|s|))), |s|);
    var t := AsWrittenRestore(s, fs);
    assert ResolveKey(o, ctx, key, Arr(s)) == ResolveNode(o, ctx, Arr(t));
    forall p | 0 <= p < |fs|
      ensures if Named(fs, p)
        then p < |s| && ResolveNode(o, ctx, Arr(t)).elems[p] == ResolveNode(o, ctx, s[p])
        else ResolveNode(o, ctx, Arr(t)).elems[p] == fs[p]
    {
      if Named(fs, p) {
        assert t[p] == NamedElement(s, fs, p);
      } else {
        assert t[p] == fs[p] && IsMarker(fs[p], |s|);
      }
    }
  }

  /** Among the keys of a restored object, the keys carrying name `b` are
      `b` itself and the original key `b` maps to; the names are exactly
      those Mock.js kept; the original keys hold their original values, and
      a bare name whose key was decorated keeps Mock.js's scalar. */
  lemma RestoredNames(v: map<string, Node>, filtered: map<string, Node>)
    requires filtered.Keys <= NameKeyMapping(v).Keys
    ensures forall x | x in Restored(v, filtered) ::
      Name(x) in filtered && (x == Name(x) || x == NameKeyMapping(v)[Name(x)])
    ensures forall b | b in filtered ::
      && Name(b) == b && b in Restored(v, filtered)
      && NameKeyMapping(v)[b] in v && NameKeyMapping(v)[b] in Restored(v, filtered)
      && Restored(v, filtered)[NameKeyMapping(v)[b]] == v[NameKeyMapping(v)[b]]
      && (NameKeyMapping(v)[b] != b ==> Restored(v, filtered)[b] == filtered[b])
  {
    var mapping := NameKeyMapping(v);
    NameKeyMappingNames(v);
    RestoreKeysOfShape(v, mapping, filtered, filtered.Keys);
    forall b | b in mapping ensures '|' !in b && Name(b) == b {
      NameShape(mapping[b]);
      NameFree(b);
    }
  }

  /** The value the resolved round trip holds under a name `b` Mock.js kept:
      the result of the original key `b` maps to, from its original value. */
  lemma RestoredValue(o: Oracles, ctx: Context, v: map<string, Node>, filtered: map<string, Node>, b: string)
    requires ValidOracles(o)
    requires filtered.Keys <= NameKeyMapping(v).Keys
    requires forall k | k in filtered :: filtered[k].Leaf?
    requires b in filtered
    ensures NameKeyMapping(v)[b] in v
    ensures b in ResolveObject(o, ctx, Restored(v, filtered))
    ensures ResolveObject(o, ctx, Restored(v, filtered))[b]
         == ResolveKey(o, ctx, NameKeyMapping(v)[b], v[NameKeyMapping(v)[b]])
  {
    var f := Restored(v, filtered);
    var kb := NameKeyMapping(v)[b];
    RestoredNames(v, filtered);
    NameKeyMappingNames(v);
    assert b in f && kb in f && Name(b) == b && Name(kb) == b && f[kb] == v[kb];
    assert kb == b || f[b] == filtered[b];
    forall x | x in f && Name(x) == b ensures x == b || x == kb {
    }
    PairWins(o, ctx, f, b, kb);
  }

  /** The name `b` carried by `b` itself and at most one other key `kb` ends
      with the result of `kb`. */
  lemma PairWins(o: Oracles, ctx: Context, m: map<string, Node>, b: string, kb: string)
    requires ValidOracles(o)
    requires b in m && kb in m && Name(b) == b && Name(kb) == b
    requires forall x | x in m && Name(x) == b :: x == b || x == kb
    requires kb == b || !m[b].Fn?
    ensures b in ResolveObject(o, ctx, m) && ResolveObject(o, ctx, m)[b] == ResolveKey(o, ctx, kb, m[kb])
  {
    if kb == b {
      AloneWins(o, ctx, m, b);
    } else {
      DecoratedOverwritesBase(o, ctx, m, kb);
    }
  }

  /** A key that no other key names ends with the result of its own value. */
  lemma AloneWins(o: Oracles, ctx: Context, m: map<string, Node>, k: string)
    requires ValidOracles(o)
    requires k in m && Name(k) == k
    requires forall x | x in m && Name(x) == k :: x == k
    ensures k in ResolveObject(o, ctx, m) && ResolveObject(o, ctx, m)[k] == ResolveKey(o, ctx, k, m[k])
  {
    var order := ProcessingOrder(m);
    var i := Position(m, k);
    KeyUntouched(o, ctx, m, k, i);
    forall j | i < j < |order| ensures Name(order[j]) != k {
      ProcessingOrderDistinct(m, i, j);
    }
    LastWriterWins(o, ctx, m, i);
  }

  /** The round trip of an object under a rule (index.js:55-74): the result
      holds exactly the names Mock.js kept, and each holds the resolved
      original value of the key that name came from. */
  lemma RuleObjectRoundTrip(o: Oracles, ctx: Context, key: string, fields: map<string, Node>)
    requires ValidOracles(o)
    ensures ResolveRuleObject(o, ctx, key, fields).Obj?
    ensures ResolveRuleObject(o, ctx, key, fields).fields.Keys
         == o.mock(key, Obj(Placeholder(fields))).fields.Keys
    ensures forall b | b in o.mock(key, Obj(Placeholder(fields))).fields ::
      && NameKeyMapping(fields)[b] in fields
      && Name(NameKeyMapping(fields)[b]) == b
      && ResolveRuleObject(o, ctx, key, fields).fields[b]
         == ResolveKey(o, ctx, NameKeyMapping(fields)[b], fields[NameKeyMapping(fields)[b]])
  {
    PlaceholderNames(fields);
    NameKeyMappingNames(fields);
    assert PickedNames(o.mock(key, Obj(Placeholder(fields))), Placeholder(fields));
    var out := o.mock(key, Obj(Placeholder(fields))).fields;
    assert ResolveRuleObject(o, ctx, key, fields) == Obj(ResolveObject(o, ctx, Restored(fields, out)));
    RestoredRoundTrip(o, ctx, fields, out);
  }

  /** Resolving the restoration of the names Mock.js kept. */
  lemma RestoredRoundTrip(o: Oracles, ctx: Context, v: map<string, Node>, filtered: map<string, Node>)
    requires ValidOracles(o)
    requires filtered.Keys <= NameKeyMapping(v).Keys
    requires forall k | k in filtered :: filtered[k].Leaf?
    ensures ResolveObject(o, ctx, Restored(v, filtered)).Keys == filtered.Keys
    ensures forall b | b in filtered ::
      && NameKeyMapping(v)[b] in v
      && Name(NameKeyMapping(v)[b]) == b
      && ResolveObject(o, ctx, Restored(v, filtered))[b]
         == ResolveKey(o, ctx, NameKeyMapping(v)[b], v[NameKeyMapping(v)[b]])
  {
    RestoredKeys(o, ctx, v, filtered);
    NameKeyMappingNames(v);
    forall b | b in filtered
      ensures ResolveObject(o, ctx, Restored(v, filtered))[b]
           == ResolveKey(o, ctx, NameKeyMapping(v)[b], v[NameKeyMapping(v)[b]])
    {
      RestoredValue(o, ctx, v, filtered, b);
    }
  }

  /** The names left after resolving a restored object are those Mock.js
      kept. */
  lemma RestoredKeys(o: Oracles, ctx: Context, v: map<string, Node>, filtered: map<string, Node>)
    requires ValidOracles(o)
    requires filtered.Keys <= NameKeyMapping(v).Keys
    ensures ResolveObject(o, ctx, Restored(v, filtered)).Keys == filtered.Keys
  {
    RestoredNames(v, filtered);
    ObjectKeysFromNames(o, ctx, Restored(v, filtered), filtered.Keys);
  }

  /** When the names of an object's keys are the bare keys `names` it
      holds, those are the keys `handle_object` leaves. */
  lemma ObjectKeysFromNames(o: Oracles, ctx: Context, m: map<string, Node>, names: set<string>)
    requires ValidOracles(o)
    requires forall x | x in m :: Name(x) in names
    requires forall b | b in names :: b in m && Name(b) == b
    ensures ResolveObject(o, ctx, m).Keys == names
  {
    ResolveObjectKeys(o, ctx, m);
    var named := set k | k in m :: Name(k);
    forall b | b in names ensures b in named {
      assert Name(b) == b && b in m;
    }
    assert named == names;
  }

  /** Mock.js keeping the array of markers as it is gives back the array,
      resolved element by element with its length (index.js:87-89, 146-150). */
  lemma UnchangedArrayResolved(o: Oracles, ctx: Context, key: string, s: seq<Node>)
    requires ValidOracles(o)
    requires o.mock(key, Arr(MarkerSeq(|s|))) == Arr(MarkerSeq(|s|))
    ensures ResolveKey(o, ctx, key, Arr(s)).Arr?
    ensures |ResolveKey(o, ctx, key, Arr(s)).elems| == |s|
    ensures forall i | 0 <= i < |s| :: ResolveKey(o, ctx, key, Arr(s)).elems[i] == ResolveNode(o, ctx, s[i])
  {
    RestorePrefix(s, |s|);
    assert s[..|s|] == s;
    assert ResolveKey(o, ctx, key, Arr(s)) == ResolveRuleArray(o, ctx, key, s);
    assert ResolveRuleArray(o, ctx, key, s) == ResolveNode(o, ctx, Arr(s));
  }

  /** A single marker picks the element it names, unwrapped (index.js:90-91). */
  lemma PickedElement(o: Oracles, ctx: Context, key: string, s: seq<Node>, i: nat)
    requires ValidOracles(o)
    requires i < |s| && o.mock(key, Arr(MarkerSeq(|s|))) == Leaf(Num(i))
    ensures ResolveKey(o, ctx, key, Arr(s)) == ResolveNode(o, ctx, s[i])
  {
  }

  // ---------------------------------------------------------------------------
  // The engine as the source runs it: loops that update their state step by step

  /** The `for` loop of index.js:80-83: `palceholder_value.push(i)`. */
  method Markers(n: nat) returns (s: seq<Node>)
    ensures |s| == n && forall i | 0 <= i < n :: s[i] == Leaf(Num(i))
    ensures s == MarkerSeq(n)
  {
    s := [];
    var i := 0;
    while i < n
      invariant 0 <= i <= n
      invariant |s| == i && forall j | 0 <= j < i :: s[j] == Leaf(Num(j))
    {
      s := s + [Leaf(Num(i))];
      i := i + 1;
    }
  }

  /** The `forEach` of index.js:60-64, which fills `name_key_mapping` and
      `placeholder_value` together, the keys taken in ascending order. */
  method BuildPlaceholder(v: map<string, Node>) returns (placeholder: map<string, Node>, mapping: map<string, string>)
    ensures mapping == NameKeyMapping(v)
    ensures placeholder == Placeholder(v)
  {
    var keys := Sort(v.Keys, {});
    mapping := map[];
    placeholder := map[];
    var i := 0;
    while i < |keys|
      invariant 0 <= i <= |keys|
      invariant mapping == MappingOf(keys, i)
      invariant placeholder == Blank(mapping)
    {
      var valueKey := keys[i];
      var valueName := Name(valueKey);
      FillStep(keys, i);
      mapping := mapping[valueName := valueKey];
      placeholder := placeholder[valueName := Leaf(Str(""))];
      i := i + 1;
    }
  }

  /** The `forEach` of index.js:70-74 over the names Mock.js kept:
      `filtered_value[value_key] = value[value_key]`. */
  method RestoreKeys(v: map<string, Node>, mapping: map<string, string>, filtered: map<string, Node>)
    returns (f: map<string, Node>)
    requires forall b | b in mapping :: mapping[b] in v
    requires filtered.Keys <= mapping.Keys
    ensures f == RestoreKeysOf(v, mapping, filtered, filtered.Keys)
  {
    var names := Sort(filtered.Keys, {});
    f := filtered;
    var i := 0;
    while i < |names|
      invariant 0 <= i <= |names|
      invariant f == RestoreNames(v, mapping, filtered, names, i)
    {
      var valueName := names[i];
      var valueKey := mapping[valueName];
      f := f[valueKey := v[valueKey]];
      i := i + 1;
    }
    RestoreNamesAll(v, mapping, filtered, names);
  }

  /** `filtered` after the first `i` names of `names` were restored. */
  function RestoreNames(v: map<string, Node>, mapping: map<string, string>,
                        filtered: map<string, Node>, names: seq<string>, i: nat): map<string, Node>
    requires forall b | b in mapping :: mapping[b] in v
    requires forall j | 0 <= j < |names| :: names[j] in mapping
    requires i <= |names|
  {
    if i == 0 then filtered
    else
      var key := mapping[names[i - 1]];
      RestoreNames(v, mapping, filtered, names, i - 1)[key := v[key]]
  }

  /** Restoring the names one after another restores the set of them. */
  lemma {:induction false} RestoreNamesPrefix(v: map<string, Node>, mapping: map<string, string>,
                                              filtered: map<string, Node>, names: seq<string>, i: nat)
    requires forall b | b in mapping :: mapping[b] in v
    requires forall j | 0 <= j < |names| :: names[j] in mapping
    requires i <= |names|
    ensures RestoreNames(v, mapping, filtered, names, i)
         == RestoreKeysOf(v, mapping, filtered, set j | 0 <= j < i :: names[j])
  {
    if i > 0 {
      RestoreNamesPrefix(v, mapping, filtered, names, i - 1);
      var before := set j | 0 <= j < i - 1 :: names[j];
      assert (set j | 0 <= j < i :: names[j]) == before + {names[i - 1]};
      RestoreOneMore(v, mapping, filtered, before, names[i - 1]);
    }
  }

  /** Restoring a listing of all the names Mock.js kept restores them all. */
  lemma RestoreNamesAll(v: map<string, Node>, mapping: map<string, string>,
                        filtered: map<string, Node>, names: seq<string>)
    requires forall b | b in mapping :: mapping[b] in v
    requires filtered.Keys <= mapping.Keys
    requires names == Sort(filtered.Keys, {})
    ensures RestoreNames(v, mapping, filtered, names, |names|)
         == RestoreKeysOf(v, mapping, filtered, filtered.Keys)
  {
    RestoreNamesPrefix(v, mapping, filtered, names, |names|);
    assert (set j | 0 <= j < |names| :: names[j]) == filtered.Keys;
  }

  lemma RestoreOneMore(v: map<string, Node>, mapping: map<string, string>,
                       filtered: map<string, Node>, done: set<string>, b: string)
    requires forall b | b in mapping :: mapping[b] in v
    requires b in mapping
    ensures RestoreKeysOf(v, mapping, filtered, done + {b})
         == RestoreKeysOf(v, mapping, filtered, done)[mapping[b] := v[mapping[b]]]
  {
    assert Image(mapping, done + {b}) == Image(mapping, done) + {mapping[b]};
  }

  /** The restoration index.js:88 evidently intends, each element read as
      the marker it holds and replaced at its own position:
      `filtered[i] = value[filtered[i]]`. */
  method RestoreArray(value: seq<Node>, a: array<Node>)
    requires forall i | 0 <= i < a.Length :: IsMarker(a[i], |value|)
    modifies a
    ensures a[..] == RestoreElements(value, old(a[..]))
  {
    ghost var fs := a[..];
    var i := 0;
    while i < a.Length
      invariant 0 <= i <= a.Length
      invariant forall p | 0 <= p < i :: a[p] == value[fs[p].p.n]
      invariant forall p | i <= p < a.Length :: a[p] == fs[p]
    {
      a[i] := value[a[i].p.n];
      i := i + 1;
    }
  }

  /** The loop of index.js:88 as written, in place; the engine uses it.
      Each marker is at most its own index, as Mock.js repetition rules
      produce, so every read finds a marker no write has touched yet. */
  method RestoreArrayAsWritten(value: seq<Node>, a: array<Node>)
    requires forall i | 0 <= i < a.Length :: IsMarker(a[i], |value|) && a[i].p.n <= i
    modifies a
    ensures a[..] == AsWrittenRestore(value, old(a[..]))
  {
    ghost var fs := a[..];
    var i := 0;
    while i < a.Length
      invariant 0 <= i <= a.Length
      invariant forall p | i <= p < a.Length :: a[p] == fs[p]
      invariant forall p | 0 <= p < i :: a[p] == if NamedBefore(fs, i, p) then value[p] else fs[p]
    {
      var item := a[i].p.n;
      a[item] := value[item];
      forall p | 0 <= p <= i ensures NamedBefore(fs, i + 1, p) <==> NamedBefore(fs, i, p) || p == item {
        if NamedBefore(fs, i + 1, p) && !NamedBefore(fs, i, p) {
          assert fs[i] == Leaf(Num(p));
        }
        if p == item {
          assert fs[i] == Leaf(Num(p));
        }
      }
      i := i + 1;
    }
    forall p | 0 <= p < a.Length ensures NamedBefore(fs, a.Length, p) <==> Named(fs, p) {
    }
  }

  /** The step from `i` to `i + 1` keys processed, and why it terminates:
      the value it resolves is smaller than the object, or finished while
      the object still holds a function. */
  lemma PrefixStep(o: Oracles, ctx: Context, m: map<string, Node>, i: nat)
    requires ValidOracles(o)
    requires i < |ProcessingOrder(m)|
    ensures var k := ProcessingOrder(m)[i];
      var st := Prefix(o, ctx, m, i);
      && k in st
      && (RankFn(st[k]) < RankFn(Obj(m)) || (RankFn(st[k]) == RankFn(Obj(m)) && Depth(st[k]) < Depth(Obj(m))))
      && Prefix(o, ctx, m, i + 1) == Store(st, k, ResolveKey(o, ctx, k, st[k]))
  {
    var k := ProcessingOrder(m)[i];
    FieldBelow(m, k);
    assert PendingAt(m, Prefix(o, ctx, m, i), i);
  }

  /** The key step `i` resolves is still in the object, and its value is
      smaller than the object. */
  lemma KeyBelow(o: Oracles, ctx: Context, m: map<string, Node>, i: nat, val: map<string, Node>)
    requires ValidOracles(o)
    requires i < |ProcessingOrder(m)| && val == Prefix(o, ctx, m, i)
    ensures ProcessingOrder(m)[i] in val
    ensures var v := val[ProcessingOrder(m)[i]];
      RankFn(v) < RankFn(Obj(m)) || (RankFn(v) == RankFn(Obj(m)) && Depth(v) < Depth(Obj(m)))
  {
    PrefixStep(o, ctx, m, i);
  }

  /** Storing the resolved value of step `i` gives the object after it. */
  lemma StoreStep(o: Oracles, ctx: Context, m: map<string, Node>, i: nat, val: map<string, Node>, value: Node)
    requires ValidOracles(o)
    requires i < |ProcessingOrder(m)| && val == Prefix(o, ctx, m, i)
    requires value == ResolveKey(o, ctx, ProcessingOrder(m)[i], val[ProcessingOrder(m)[i]])
    ensures Store(val, ProcessingOrder(m)[i], value) == Prefix(o, ctx, m, i + 1)
  {
    PrefixStep(o, ctx, m, i);
  }

  /** `handle_mockjs_syntax(key, value)` (index.js:45-104): the name and the
      resolved value. */
  method HandleMockSyntax(o: Oracles, ctx: Context, key: string, value: Node) returns (name: string, r: Node)
    requires ValidOracles(o)
    ensures name == Name(key)
    ensures r == ResolveKey(o, ctx, key, value)
    decreases RankFn(value), Depth(value), 4, 0
  {
    var parts := Split(key, '|');
    name := parts[0];
    NameIsFirstPiece(key);
    var rule := if |parts| >= 2 then Trim(parts[1]) else "";
    RuleIsSecondPiece(key);
    var valueType := TypeOf(value);
    if valueType == FunctionKind {
      r := Recursive(o, ctx, value);
    } else if valueType == ObjectKind {
      if rule != "" {
        r := HandleRuleObject(o, ctx, key, value.fields);
      } else {
        r := Recursive(o, ctx, value);
      }
    } else if valueType == ArrayKind {
      r := HandleRuleArray(o, ctx, key, value.elems);
    } else {
      r := o.mock(key, value);
    }
  }

  /** The object branch of index.js:57-77. */
  method HandleRuleObject(o: Oracles, ctx: Context, key: string, fields: map<string, Node>) returns (r: Node)
    requires ValidOracles(o)
    ensures r == ResolveRuleObject(o, ctx, key, fields)
    decreases RankFn(Obj(fields)), Depth(Obj(fields)), 3, 0
  {
    var placeholder, mapping := BuildPlaceholder(fields);
    NameKeyMappingNames(fields);
    PlaceholderNames(fields);
    var filtered := o.mock(key, Obj(placeholder));
    var restored := RestoreKeys(fields, mapping, filtered.fields);
    RestoredParts(fields, filtered.fields);
    ObjectFromParts(restored, fields);
    r := Recursive(o, ctx, Obj(restored));
  }

  /** The array branch of index.js:78-101. */
  method HandleRuleArray(o: Oracles, ctx: Context, key: string, s: seq<Node>) returns (r: Node)
    requires ValidOracles(o)
    ensures r == ResolveRuleArray(o, ctx, key, s)
    decreases RankFn(Arr(s)), Depth(Arr(s)), 3, 0
  {
    var markers := Markers(|s|);
    var filtered := o.mock(key, Arr(markers));
    if filtered.Arr? {
      var fs := filtered.elems;
      var a := new Node[|fs|](i requires 0 <= i < |fs| => fs[i]);
      assert a[..] == fs;
      RestoreArrayAsWritten(s, a);
      var t := a[..];
      ArrayFromParts(t, s);
      r := Recursive(o, ctx, Arr(t));
    } else if IsMarker(filtered, |s|) {
      ElementBelow(s, filtered.p.n);
      r := Recursive(o, ctx, s[filtered.p.n]);
    } else {
      r := Leaf(Undefined);
    }
  }

  /** `handle_object(val)` (index.js:110-131): the loop over the key
      snapshot, storing each result under its name and deleting the
      decorated key. */
  method HandleObject(o: Oracles, ctx: Context, m: map<string, Node>) returns (r: map<string, Node>)
    requires ValidOracles(o)
    ensures r == ResolveObject(o, ctx, m)
    decreases RankFn(Obj(m)), Depth(Obj(m)), 1, 0
  {
    var keys := ProcessingOrder(m);
    var val := m;
    var i := 0;
    while i < |keys|
      invariant 0 <= i <= |keys|
      invariant val == Prefix(o, ctx, m, i)
    {
      val := HandleKey(o, ctx, m, i, val);
      i := i + 1;
    }
    assert i == |keys|;
    r := val;
    assert r == Prefix(o, ctx, m, |ProcessingOrder(m)|);
    ResolveObjectIsFinal(o, ctx, m);
  }

  /** One turn of the loop of index.js:123-128: the key of turn `i` is
      resolved and its result stored under its name. */
  method HandleKey(o: Oracles, ctx: Context, m: map<string, Node>, i: nat, val: map<string, Node>)
      returns (next: map<string, Node>)
    requires ValidOracles(o)
    requires i < |ProcessingOrder(m)| && val == Prefix(o, ctx, m, i)
    ensures next == Prefix(o, ctx, m, i + 1)
    decreases RankFn(Obj(m)), Depth(Obj(m)), 0, 0
  {
    var orgKey := ProcessingOrder(m)[i];
    KeyBelow(o, ctx, m, i, val);
    var key, value := HandleMockSyntax(o, ctx, orgKey, val[orgKey]);
    StoreStep(o, ctx, m, i, val, value);
    next := Store(val, orgKey, value);
  }

  /** `recursive(val)` (index.js:139-161). */
  method Recursive(o: Oracles, ctx: Context, val: Node) returns (r: Node)
    requires ValidOracles(o)
    ensures r == ResolveNode(o, ctx, val)
    decreases RankFn(val), Depth(val), 2, 0
  {
    match TypeOf(val) {
      case ObjectKind =>
        var fields := HandleObject(o, ctx, val.fields);
        r := Obj(fields);
      case ArrayKind =>
        var s := val.elems;
        var elems := s;
        var i := 0;
        while i < |elems|
          invariant 0 <= i <= |s| && |elems| == |s|
          invariant forall j | 0 <= j < i :: elems[j] == ResolveNode(o, ctx, s[j])
          invariant forall j | i <= j < |s| :: elems[j] == s[j]
        {
          ElementBelow(s, i);
          var e := Recursive(o, ctx, elems[i]);
          elems := elems[i := e];
          i := i + 1;
        }
        r := Arr(elems);
      case FunctionKind =>
        r := o.call(val.id, ctx);
      case OtherKind =>
        r := val;
    }
  }
}
