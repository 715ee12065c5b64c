/** Template values: what a template file evaluates to before the engine
    resolves it. JSON-like data plus generator functions, which the model
    keeps opaque and identifies by a number. */
module Json {

  /** Scalars. Only integral numbers are represented. */
  datatype Prim = Str(s: string) | Num(n: int) | Bool(b: bool) | Null | Undefined

  /** One template node: a scalar, a plain object (keys to nodes), an array,
      or a generator function. */
  datatype Node =
    | Leaf(p: Prim)
    | Obj(fields: map<string, Node>)
    | Arr(elems: seq<Node>)
    | Fn(id: nat)

  /** The `[object X]` tag the source switches on (index.js:30-36), reduced
      to the four cases the engine distinguishes. */
  datatype Kind = ObjectKind | ArrayKind | FunctionKind | OtherKind

  function TypeOf(n: Node): (k: Kind)
    ensures k == ObjectKind <==> n.Obj?
    ensures k == ArrayKind <==> n.Arr?
    ensures k == FunctionKind <==> n.Fn?
    ensures k == OtherKind <==> n.Leaf?
  {
    match n
    case Obj(_) => ObjectKind
    case Arr(_) => ArrayKind
    case Fn(_) => FunctionKind
    case Leaf(_) => OtherKind
  }

  /** The node holds a generator function somewhere. */
  ghost predicate HasFn(n: Node) {
    match n
    case Fn(_) => true
    case Leaf(_) => false
    case Obj(m) => exists k | k in m :: HasFn(m[k])
    case Arr(s) => exists i | 0 <= i < |s| :: HasFn(s[i])
  }

  /** Finished data: no generator function left anywhere inside. */
  ghost predicate FnFree(n: Node) {
    !HasFn(n)
  }

  /** Nesting depth of containers; scalars and functions have depth 0. */
  ghost function Depth(n: Node): nat
    decreases n, 1, 0
  {
    match n
    case Obj(m) => 1 + MaxDepthMap(m, m.Keys)
    case Arr(s) => 1 + MaxDepthSeq(s, |s|)
    case _ => 0
  }

  ghost function MaxDepthMap(m: map<string, Node>, ks: set<string>): nat
    requires ks <= m.Keys
    decreases Obj(m), 0, |ks|
  {
    if ks == {} then 0
    else
      var k := Pick(ks);
      Max(Depth(m[k]), MaxDepthMap(m, ks - {k}))
  }

  /** Some member of a non-empty set of keys. */
  ghost function Pick(ks: set<string>): (k: string)
    requires ks != {}
    ensures k in ks
  {
    var k :| k in ks; k
  }

  ghost function MaxDepthSeq(s: seq<Node>, i: nat): nat
    requires i <= |s|
    decreases Arr(s), 0, i
  {
    if i == 0 then 0 else Max(Depth(s[i - 1]), MaxDepthSeq(s, i - 1))
  }

  function Max(a: nat, b: nat): nat { if a < b then b else a }

  lemma {:induction false} MaxDepthMapAbove(m: map<string, Node>, ks: set<string>, k: string)
    requires ks <= m.Keys && k in ks
    ensures Depth(m[k]) <= MaxDepthMap(m, ks)
    decreases |ks|
  {
    var j := Pick(ks);
    if j != k { MaxDepthMapAbove(m, ks - {j}, k); }
  }

  lemma {:induction false} MaxDepthMapBelow(m: map<string, Node>, ks: set<string>, d: nat)
    requires ks <= m.Keys
    requires forall k | k in ks :: Depth(m[k]) <= d
    ensures MaxDepthMap(m, ks) <= d
    decreases |ks|
  {
    if ks != {} {
      var j := Pick(ks);
      MaxDepthMapBelow(m, ks - {j}, d);
    }
  }

  lemma {:induction false} MaxDepthSeqAbove(s: seq<Node>, i: nat, j: nat)
    requires j < i <= |s|
    ensures Depth(s[j]) <= MaxDepthSeq(s, i)
    decreases i
  {
    if j < i - 1 { MaxDepthSeqAbove(s, i - 1, j); }
  }

  lemma {:induction false} MaxDepthSeqBelow(s: seq<Node>, i: nat, d: nat)
    requires i <= |s|
    requires forall j | 0 <= j < i :: Depth(s[j]) <= d
    ensures MaxDepthSeq(s, i) <= d
    decreases i
  {
    if i > 0 { MaxDepthSeqBelow(s, i - 1, d); }
  }

  /** A member of an object is shallower than the object and holds a
      function only if the object does. */
  lemma FieldBelow(m: map<string, Node>, k: string)
    requires k in m
    ensures Depth(m[k]) < Depth(Obj(m))
    ensures HasFn(m[k]) ==> HasFn(Obj(m))
  {
    MaxDepthMapAbove(m, m.Keys, k);
  }

  lemma ElementBelow(s: seq<Node>, i: nat)
    requires i < |s|
    ensures Depth(s[i]) < Depth(Arr(s))
    ensures HasFn(s[i]) ==> HasFn(Arr(s))
  {
    MaxDepthSeqAbove(s, |s|, i);
  }

  /** An object built from scalars and members of another object is no
      deeper than that object and holds a function only if that one does. */
  lemma ObjectFromParts(f: map<string, Node>, m: map<string, Node>)
    requires forall k | k in f :: f[k].Leaf? || f[k] in m.Values
    ensures Depth(Obj(f)) <= Depth(Obj(m))
    ensures HasFn(Obj(f)) ==> HasFn(Obj(m))
  {
    var d := Depth(Obj(m)) - 1;
    forall k | k in f ensures Depth(f[k]) <= d && (HasFn(f[k]) ==> HasFn(Obj(m))) {
      if !f[k].Leaf? {
        var j :| j in m && m[j] == f[k];
        FieldBelow(m, j);
      }
    }
    MaxDepthMapBelow(f, f.Keys, d);
  }

  /** The same for an array built from scalars and elements of another
      array. */
  lemma ArrayFromParts(t: seq<Node>, s: seq<Node>)
    requires forall i | 0 <= i < |t| :: t[i].Leaf? || t[i] in s
    ensures Depth(Arr(t)) <= Depth(Arr(s))
    ensures HasFn(Arr(t)) ==> HasFn(Arr(s))
  {
    var d := Depth(Arr(s)) - 1;
    forall i | 0 <= i < |t| ensures Depth(t[i]) <= d && (HasFn(t[i]) ==> HasFn(Arr(s))) {
      if !t[i].Leaf? {
        var j :| 0 <= j < |s| && s[j] == t[i];
        ElementBelow(s, j);
      }
    }
    MaxDepthSeqBelow(t, |t|, d);
  }
}
