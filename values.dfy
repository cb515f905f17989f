/** Values stored in a node's props, and the Option type used for nullable references. */
module Values {

  datatype Option<+T> = None | Some(value: T)

  /** A JavaScript value as held by a prop. Numbers are integers in this model. */
  datatype Value =
    | Undefined
    | Null
    | Bool(b: bool)
    | Num(n: int)
    | Str(s: string)
    | Arr(items: seq<Value>)
    | Obj(fields: map<string, Value>)
    | Expr(code: string)   // a JSExpression object

  /** Reading a key that is not present yields `undefined`. */
  function Lookup(m: map<string, Value>, key: string): (v: Value)
    ensures key !in m ==> v == Undefined
    ensures key in m ==> v == m[key]
  {
    if key in m then m[key] else Undefined
  }

  /** The reading of `Prop.getAsString()` this model assumes: a string literal gives itself,
      anything else the empty string. */
  function AsString(v: Value): string {
    if v.Str? then v.s else ""
  }

  /** The content a Leaf node keeps: text or an expression, anything else becomes `''`
      (`isDOMText(children) || isJSExpression(children) ? children : ''`). */
  function LeafContent(v: Value): (c: Value)
    ensures c.Str? || c.Expr?
    ensures (v.Str? || v.Expr?) ==> c == v
    ensures !(v.Str? || v.Expr?) ==> c == Str("")
  {
    if v.Str? || v.Expr? then v else Str("")
  }

  lemma LeafContentIdempotent(v: Value)
    ensures LeafContent(LeafContent(v)) == LeafContent(v)
  {
  }
}

/** Sequence operations used by the ordered children and slot collections. */
module Sequences {
  import opened Values

  ghost predicate NoDup<T>(s: seq<T>) {
    forall i, j | 0 <= i < j < |s| :: s[i] != s[j]
  }

  /** `Array.prototype.indexOf` by identity: the first position of `x`, or -1. */
  function IndexOf<T(==)>(s: seq<T>, x: T): (i: int)
    ensures -1 <= i < |s|
    ensures i == -1 <==> x !in s
    ensures 0 <= i ==> s[i] == x && x !in s[..i]
  {
    if |s| == 0 then -1
    else if s[0] == x then 0
    else
      var j := IndexOf(s[1..], x);
      if j == -1 then -1
      else
        assert s[..j + 1] == [s[0]] + s[1..][..j];
        j + 1
  }

  /** `get(i)`: the element at `i`, or nothing when `i` is out of range. */
  function ElementAt<T>(s: seq<T>, i: int): (r: Option<T>)
    ensures r.Some? <==> 0 <= i < |s|
    ensures r.Some? ==> r.value == s[i]
  {
    if 0 <= i < |s| then Some(s[i]) else None
  }

  /** `splice(indexOf(x), 1)` guarded by `indexOf(x) < 0`: removes the first occurrence of `x`
      and keeps every other element in its order; a sequence without `x` is returned as is. */
  function RemoveFirst<T(==)>(s: seq<T>, x: T): (r: seq<T>)
    ensures x !in s ==> r == s
    ensures x in s ==> |r| == |s| - 1
  {
    var i := IndexOf(s, x);
    if i < 0 then s else s[..i] + s[i + 1..]
  }

  /** The elements before the first `x` stay where they were and those after it move up by
      one. */
  lemma RemoveFirstOrder<T>(s: seq<T>, x: T)
    requires x in s
    ensures var r := RemoveFirst(s, x);
      forall k | 0 <= k < |r| :: r[k] == if k < IndexOf(s, x) then s[k] else s[k + 1]
  {
  }

  /** Exactly one `x` is gone, and nothing else. */
  lemma RemoveFirstCount<T>(s: seq<T>, x: T)
    ensures multiset(RemoveFirst(s, x)) == multiset(s) - multiset{x}
  {
    var i := IndexOf(s, x);
    if i < 0 {
      assert multiset(s)[x] == 0;
    } else {
      var a, b := s[..i], s[i + 1..];
      assert s == a + [x] + b;
      assert multiset(s) == multiset(a) + multiset{x} + multiset(b);
      assert multiset(RemoveFirst(s, x)) == multiset(a) + multiset(b);
    }
  }

  /** Without duplicates, removing `x` removes it entirely and nothing else. */
  lemma RemoveFirstNoDup<T>(s: seq<T>, x: T)
    requires NoDup(s)
    ensures NoDup(RemoveFirst(s, x))
    ensures x !in RemoveFirst(s, x)
    ensures forall y :: y in RemoveFirst(s, x) <==> y in s && y != x
  {
    if x in s {
      var i := IndexOf(s, x);
      assert RemoveFirst(s, x) == s[..i] + s[i + 1..];
      DropAtNoDup(s, i);
    }
  }

  lemma DropAtNoDup<T>(s: seq<T>, i: int)
    requires NoDup(s) && 0 <= i < |s|
    ensures NoDup(s[..i] + s[i + 1..])
    ensures s[i] !in s[..i] + s[i + 1..]
    ensures forall y :: y in s[..i] + s[i + 1..] <==> y in s && y != s[i]
  {
    var r := s[..i] + s[i + 1..];
    assert |r| == |s| - 1;
    assert forall k | 0 <= k < |r| :: r[k] == s[if k < i then k else k + 1];
    forall y | y in s && y != s[i] ensures y in r {
      var k :| 0 <= k < |s| && s[k] == y;
      assert r[if k < i then k else k - 1] == y;
    }
  }
}
