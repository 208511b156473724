/** Building a configuration tree from values at paths. */
module CommandTrees {
  import opened Results
  import opened Pointers
  import opened Values
  import opened Schemas
  import opened CommandOptions

  /** A value placed at a path below the current one; objects on the way are created as needed. */
  function Insert(current: Value, path: Tokens, value: Value): Result<Value>
    decreases |path|
  {
    if |path| == 0 then Success(value)
    else if !current.Object? && !current.Null? then Failure(Configuration)
    else
      match Insert(Below(current, path[0]), path[1..], value)
      case Failure(error) => Failure(error)
      case Success(inserted) => Success(Object(FieldsOf(current)[path[0] := inserted]))
  }

  function FieldsOf(current: Value): map<string, Value> {
    if current.Object? then current.fields else map[]
  }

  function Below(current: Value, token: string): Value {
    if token in FieldsOf(current) then FieldsOf(current)[token] else Null
  }

  /** No scalar lies on the way. */
  predicate Insertable(current: Value, path: Tokens)
    decreases |path|
  {
    |path| == 0 || ((current.Object? || current.Null?) && Insertable(Below(current, path[0]), path[1..]))
  }

  lemma {:induction false} InsertSucceeds(current: Value, path: Tokens, value: Value)
    ensures Insert(current, path, value).Success? <==> Insertable(current, path)
    decreases |path|
  {
    if |path| == 0 {
    } else {
      InsertSucceeds(Below(current, path[0]), path[1..], value);
    }
  }

  lemma PrefixTail(p: Tokens, q: Tokens)
    requires |p| > 0 && |q| > 0 && p[0] == q[0]
    ensures IsPrefix(p, q) <==> IsPrefix(p[1..], q[1..])
  {
    assert p == [p[0]] + p[1..];
    if |p| <= |q| {
      assert q[..|p|] == [q[0]] + q[1..][..|p| - 1];
      assert q[..|p|][1..] == q[1..][..|p| - 1];
    }
  }

  lemma IncomparableStep(p: Tokens, q: Tokens)
    requires Incomparable(p, q)
    ensures |p| > 0 && |q| > 0 && (p[0] == q[0] ==> Incomparable(p[1..], q[1..]))
  {
    if p[0] == q[0] {
      PrefixTail(p, q);
      PrefixTail(q, p);
    }
  }

  /** An insertion elsewhere leaves a path insertable. */
  lemma {:induction false} StaysInsertable(current: Value, p: Tokens, q: Tokens, w: Value)
    requires Incomparable(p, q) && Insertable(current, p) && Insertable(current, q)
    ensures Insert(current, q, w).Success? && Insertable(Insert(current, q, w).value, p)
    decreases |p|
  {
    InsertSucceeds(current, q, w);
    IncomparableStep(p, q);
    if p[0] == q[0] {
      StaysInsertable(Below(current, p[0]), p[1..], q[1..], w);
    }
  }

  /** Insertions at incomparable paths commute. */
  lemma {:induction false} InsertionsCommute(current: Value, p: Tokens, v: Value, q: Tokens, w: Value)
    requires Incomparable(p, q) && Insertable(current, p) && Insertable(current, q)
    ensures Insert(current, p, v).Success? && Insert(current, q, w).Success?
    ensures Insert(Insert(current, p, v).value, q, w) == Insert(Insert(current, q, w).value, p, v)
    decreases |p|
  {
    InsertSucceeds(current, p, v);
    InsertSucceeds(current, q, w);
    IncomparableStep(p, q);
    var x, y := Below(current, p[0]), Below(current, q[0]);
    if p[0] == q[0] {
      InsertionsCommute(x, p[1..], v, q[1..], w);
      SameToken(current, p, v, q, w);
      SameToken(current, q, w, p, v);
    } else {
      OtherToken(current, p, v, q, w);
      OtherToken(current, q, w, p, v);
      hide Insert;
      var fields := FieldsOf(current);
      var a, b := Insert(x, p[1..], v).value, Insert(y, q[1..], w).value;
      assert fields[p[0] := a][q[0] := b] == fields[q[0] := b][p[0] := a];
    }
  }

  lemma OtherToken(current: Value, p: Tokens, v: Value, q: Tokens, w: Value)
    requires |p| > 0 && |q| > 0 && p[0] != q[0] && Insert(current, p, v).Success? && Insert(current, q, w).Success?
    ensures var x, y := Insert(Below(current, p[0]), p[1..], v), Insert(Below(current, q[0]), q[1..], w);
      && x.Success? && y.Success?
      && Insert(Insert(current, p, v).value, q, w)
         == Success(Object(FieldsOf(current)[p[0] := x.value][q[0] := y.value]))
  {
    var after := Insert(current, p, v).value;
    assert Below(after, q[0]) == Below(current, q[0]);
  }

  lemma SameToken(current: Value, p: Tokens, v: Value, q: Tokens, w: Value)
    requires |p| > 0 && |q| > 0 && p[0] == q[0] && Insert(current, p, v).Success?
    ensures var x := Insert(Below(current, p[0]), p[1..], v);
      && x.Success?
      && Insert(Insert(current, p, v).value, q, w)
         == if Insert(x.value, q[1..], w).Success?
            then Success(Object(FieldsOf(current)[p[0] := Insert(x.value, q[1..], w).value]))
            else Insert(x.value, q[1..], w)
  {
    var x := Insert(Below(current, p[0]), p[1..], v).value;
    var after := Insert(current, p, v).value;
    assert Below(after, q[0]) == x;
    var y := Insert(x, q[1..], w);
    if y.Success? {
      assert FieldsOf(after)[q[0] := y.value] == FieldsOf(current)[p[0] := y.value];
    }
  }

  /** The inserted node is found where it was put. */
  lemma {:induction false} InsertedNode(current: Value, path: Tokens, value: Value)
    requires Insertable(current, path)
    ensures Insert(current, path, value).Success?
    ensures Node(Insert(current, path, value).value, path) == Some(value)
    decreases |path|
  {
    InsertSucceeds(current, path, value);
    if |path| == 0 {
    } else {
      InsertedNode(Below(current, path[0]), path[1..], value);
    }
  }

  /** Nodes at incomparable paths are left as they were. */
  lemma {:induction false} OtherNode(current: Value, p: Tokens, q: Tokens, w: Value)
    requires Incomparable(p, q) && Insertable(current, q) && IsNode(current, p) && current.Object?
    ensures Insert(current, q, w).Success?
    ensures Node(Insert(current, q, w).value, p) == Node(current, p)
    decreases |p|
  {
    InsertSucceeds(current, q, w);
    IncomparableStep(p, q);
    if p[0] == q[0] {
      var child := Below(current, p[0]);
      IncomparableStep(p[1..], q[1..]);
      assert IsNode(child, p[1..]);
      OtherNode(child, p[1..], q[1..], w);
    }
  }

  // ----- Many insertions ----------------------------------------------------

  datatype Setting = Setting(path: Tokens, value: Value)

  /** The tree after inserting the settings in order. */
  function Built(root: Value, settings: seq<Setting>): Result<Value> {
    if |settings| == 0 then Success(root)
    else
      var last := settings[|settings| - 1];
      match Built(root, settings[..|settings| - 1])
      case Failure(error) => Failure(error)
      case Success(tree) => Insert(tree, last.path, last.value)
  }

  /** An empty tree: no scalar is in the way of any path. */
  predicate IsEmptyTree(root: Value) {
    root == Null || root == Object(map[])
  }

  predicate PairwiseIncomparable(settings: seq<Setting>) {
    forall i, j :: 0 <= i < j < |settings| ==> Incomparable(settings[i].path, settings[j].path)
  }

  lemma {:induction false} EverythingInsertable(root: Value, path: Tokens)
    requires IsEmptyTree(root)
    ensures Insertable(root, path)
    decreases |path|
  {
    if |path| == 0 {
    } else {
      EverythingInsertable(Null, path[1..]);
    }
  }

  lemma BuiltLast(root: Value, settings: seq<Setting>, s: Setting)
    ensures Built(root, settings + [s])
            == if Built(root, settings).Success? then Insert(Built(root, settings).value, s.path, s.value)
               else Built(root, settings)
  {
    assert (settings + [s])[..|settings|] == settings;
  }

  /** Insertions at pairwise incomparable paths never meet a scalar, and leave
      every other incomparable path insertable. */
  lemma {:induction false} BuildingSucceeds(root: Value, settings: seq<Setting>, path: Tokens)
    requires IsEmptyTree(root) && PairwiseIncomparable(settings)
    ensures Built(root, settings).Success?
    ensures (forall i :: 0 <= i < |settings| ==> Incomparable(settings[i].path, path)) ==>
              Insertable(Built(root, settings).value, path)
  {
    if |settings| == 0 {
      EverythingInsertable(root, path);
    } else {
      var n := |settings| - 1;
      var last := settings[n];
      BuildingSucceeds(root, settings[..n], last.path);
      BuildingSucceeds(root, settings[..n], path);
      var tree := Built(root, settings[..n]).value;
      InsertSucceeds(tree, last.path, last.value);
      if Incomparable(last.path, path) && Insertable(tree, path) {
        StaysInsertable(tree, path, last.path, last.value);
      }
    }
  }

  /** Each setting is found in the built tree. */
  lemma {:induction false} SettingIsFound(root: Value, settings: seq<Setting>, i: nat)
    requires IsEmptyTree(root) && PairwiseIncomparable(settings) && i < |settings|
    ensures Built(root, settings).Success?
    ensures Node(Built(root, settings).value, settings[i].path) == Some(settings[i].value)
  {
    var n := |settings| - 1;
    var last := settings[n];
    BuildingSucceeds(root, settings, last.path);
    BuildingSucceeds(root, settings[..n], last.path);
    var tree := Built(root, settings[..n]).value;
    if i == n {
      InsertedNode(tree, last.path, last.value);
    } else {
      SettingIsFound(root, settings[..n], i);
      IncomparableStep(settings[i].path, last.path);
      OtherNode(tree, settings[i].path, last.path, last.value);
    }
  }

  predicate IsScalar(value: Value) {
    !value.Object? && !value.List?
  }

  /** What an insertion makes of each path. */
  lemma {:induction false} InsertedShape(current: Value, q: Tokens, w: Value, p: Tokens)
    requires Insertable(current, q) && IsScalar(w)
    ensures Insert(current, q, w).Success?
    ensures var after := Node(Insert(current, q, w).value, p);
      if p == q then after == Some(w)
      else if IsPrefix(q, p) then after == None
      else if IsPrefix(p, q) then after.Some? && after.value.Object?
      else after == Node(current, p)
    decreases |q|
  {
    InsertSucceeds(current, q, w);
    if |q| == 0 {
      assert p == q || |p| > 0;
    } else if |p| > 0 {
      if p[0] == q[0] {
        assert p == [p[0]] + p[1..] && q == [q[0]] + q[1..];
        PrefixTail(p, q);
        PrefixTail(q, p);
        InsertedShape(Below(current, q[0]), q[1..], w, p[1..]);
      }
    }
  }

  /** The path is a prefix of some setting's path. */
  ghost predicate Leads(settings: seq<Setting>, p: Tokens) {
    exists i :: 0 <= i < |settings| && IsPrefix(p, settings[i].path)
  }

  /** The path lies above some setting's path. */
  ghost predicate LiesAbove(settings: seq<Setting>, p: Tokens) {
    exists i :: 0 <= i < |settings| && IsPrefix(p, settings[i].path) && p != settings[i].path
  }

  lemma LeadsUnfolds(settings: seq<Setting>, p: Tokens)
    requires |settings| > 0
    ensures var n, last := |settings| - 1, settings[|settings| - 1];
      && (Leads(settings, p) <==> Leads(settings[..n], p) || IsPrefix(p, last.path))
      && (LiesAbove(settings, p) <==> LiesAbove(settings[..n], p) || (IsPrefix(p, last.path) && p != last.path))
  {
    hide IsPrefix;
    var front := settings[..|settings| - 1];
    assert forall i :: 0 <= i < |front| ==> settings[i] == front[i];
  }

  /** The nodes of the built tree are its root and the prefixes of the paths; those on the way are objects. */
  lemma {:induction false} BuiltShape(root: Value, settings: seq<Setting>, p: Tokens)
    requires IsEmptyTree(root) && PairwiseIncomparable(settings)
    requires forall i :: 0 <= i < |settings| ==> IsScalar(settings[i].value)
    ensures Built(root, settings).Success?
    ensures var node := Node(Built(root, settings).value, p);
      (node.Some? <==> p == [] || Leads(settings, p)) && (LiesAbove(settings, p) ==> node.value.Object?)
  {
    if |settings| == 0 {
    } else {
      var n := |settings| - 1;
      var last := settings[n];
      BuildingSucceeds(root, settings[..n], last.path);
      BuiltShape(root, settings[..n], p);
      InsertedShape(Built(root, settings[..n]).value, last.path, last.value, p);
      PrefixesStayApart(settings, p);
      LeadsUnfolds(settings, p);
      hide Insert, Node, Leads, LiesAbove, PairwiseIncomparable, Insertable;
    }
  }

  /** A path with a prefix among the settings' paths is no prefix of another of them. */
  lemma PrefixesStayApart(settings: seq<Setting>, p: Tokens)
    requires PairwiseIncomparable(settings) && |settings| > 0
    ensures var last := settings[|settings| - 1];
      IsPrefix(last.path, p) ==> !Leads(settings[..|settings| - 1], p) && !LiesAbove(settings[..|settings| - 1], p)
  {
    var last := settings[|settings| - 1];
    forall i | 0 <= i < |settings| - 1
      ensures IsPrefix(last.path, p) && IsPrefix(p, settings[i].path) ==> IsPrefix(last.path, settings[i].path)
    {
      PrefixOfPrefix(last.path, p, settings[i].path);
    }
    hide IsPrefix;
    assert forall i :: 0 <= i < |settings| - 1 ==> Incomparable(settings[i].path, last.path);
  }

  lemma PrefixOfPrefix(a: Tokens, b: Tokens, c: Tokens)
    ensures IsPrefix(a, b) && IsPrefix(b, c) ==> IsPrefix(a, c)
  {
    if IsPrefix(a, b) && IsPrefix(b, c) {
      assert c[..|b|][..|a|] == c[..|a|];
    }
  }

  /** The settings without one of them. */
  function Without(settings: seq<Setting>, k: nat): (rest: seq<Setting>)
    requires k < |settings|
    ensures |rest| == |settings| - 1
    ensures forall i :: 0 <= i < |rest| ==> rest[i] == settings[if i < k then i else i + 1]
  {
    settings[..k] + settings[k + 1..]
  }

  lemma WithoutIsIncomparable(settings: seq<Setting>, k: nat)
    requires PairwiseIncomparable(settings) && k < |settings|
    ensures PairwiseIncomparable(Without(settings, k))
    ensures forall i :: 0 <= i < |settings| && i != k ==> Incomparable(settings[i].path, settings[k].path)
  {
    hide IsPrefix;
  }

  /** A setting may as well be inserted last. */
  lemma {:induction false} MoveToEnd(root: Value, settings: seq<Setting>, k: nat)
    requires IsEmptyTree(root) && PairwiseIncomparable(settings) && k < |settings|
    ensures Built(root, settings) == Built(root, Without(settings, k) + [settings[k]])
    decreases |settings|
  {
    var n := |settings| - 1;
    if k == n {
      assert settings == settings[..n] + [settings[n]];
      assert Without(settings, n) == settings[..n];
    } else {
      var front, s, y := settings[..n], settings[k], settings[n];
      var rest := Without(front, k);
      assert settings == front + [y];
      assert Without(settings, k) == rest + [y];
      MoveToEnd(root, front, k);
      WithoutIsIncomparable(front, k);
      hide IsPrefix, Built, Without, PairwiseIncomparable;
      ApartFromLast(settings, k, rest);
      SwapLast(root, rest, s, y);
      BuiltLast(root, front, y);
      BuiltLast(root, rest + [s], y);
    }
  }

  lemma ApartFromLast(settings: seq<Setting>, k: nat, rest: seq<Setting>)
    requires PairwiseIncomparable(settings) && k < |settings| - 1
    requires rest == Without(settings[..|settings| - 1], k)
    ensures Incomparable(settings[k].path, settings[|settings| - 1].path)
    ensures forall i :: 0 <= i < |rest| ==>
      Incomparable(rest[i].path, settings[k].path) && Incomparable(rest[i].path, settings[|settings| - 1].path)
  {
    hide IsPrefix;
    assert forall i :: 0 <= i < |rest| ==> rest[i] == settings[if i < k then i else i + 1];
  }

  lemma {:induction false} SwapLast(root: Value, rest: seq<Setting>, s: Setting, y: Setting)
    requires IsEmptyTree(root) && PairwiseIncomparable(rest) && Incomparable(s.path, y.path)
    requires forall i :: 0 <= i < |rest| ==> Incomparable(rest[i].path, s.path) && Incomparable(rest[i].path, y.path)
    ensures Built(root, rest + [s] + [y]) == Built(root, rest + [y] + [s])
  {
    BuildingSucceeds(root, rest, s.path);
    BuildingSucceeds(root, rest, y.path);
    InsertionsCommute(Built(root, rest).value, s.path, s.value, y.path, y.value);
    BuiltLast(root, rest, s);
    BuiltLast(root, rest, y);
    BuiltLast(root, rest + [s], y);
    BuiltLast(root, rest + [y], s);
  }

  lemma CancelOne(x: multiset<Setting>, y: multiset<Setting>, s: Setting)
    requires x + multiset{s} == y + multiset{s}
    ensures x == y
  {
    assert x == (x + multiset{s}) - multiset{s};
    assert y == (y + multiset{s}) - multiset{s};
  }

  lemma SameWithoutOne(a: seq<Setting>, b: seq<Setting>) returns (i: nat)
    requires multiset(a) == multiset(b) && |a| > 0
    ensures i < |b| && b[i] == a[|a| - 1]
    ensures multiset(a[..|a| - 1]) == multiset(Without(b, i))
  {
    var s := a[|a| - 1];
    assert a == a[..|a| - 1] + [s];
    assert s in multiset(b);
    i :| 0 <= i < |b| && b[i] == s;
    var left, right, front := b[..i], b[i + 1..], a[..|a| - 1];
    assert b == left + [s] + right;
    assert multiset(front) + multiset{s} == multiset(left) + multiset(right) + multiset{s};
    CancelOne(multiset(front), multiset(left) + multiset(right), s);
    assert multiset(Without(b, i)) == multiset(left) + multiset(right);
  }

  /** The tree does not depend on the order of the settings. */
  lemma {:induction false} OrderDoesNotMatter(root: Value, a: seq<Setting>, b: seq<Setting>)
    requires IsEmptyTree(root) && PairwiseIncomparable(a) && PairwiseIncomparable(b) && multiset(a) == multiset(b)
    ensures Built(root, a) == Built(root, b)
    decreases |a|
  {
    assert |a| == |multiset(a)| == |multiset(b)| == |b|;
    if |a| == 0 {
    } else {
      var n := |a| - 1;
      var i := SameWithoutOne(a, b);
      var rest := Without(b, i);
      WithoutIsIncomparable(b, i);
      hide Without, Insert;
      MoveToEnd(root, b, i);
      OrderDoesNotMatter(root, a[..n], rest);
      BuiltLast(root, a[..n], a[n]);
      BuiltLast(root, rest, a[n]);
      assert a == a[..n] + [a[n]];
    }
  }
}
