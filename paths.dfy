/**
 * The path writer of the form service (`setValue`): writing a value into the
 * nested data record along a dot-separated schema path.
 *
 * `Walk` is the reference definition of one write, segment by segment;
 * `SetValue` is the source's loop, which walks a cursor down the record and
 * creates a map wherever the path is missing or falsy, and is proved to
 * compute `SetValueSpec`. The lemmas state what a write promises: the value
 * can be read back along the path, nothing off the path changes, every
 * intermediate becomes a map, and exactly when JavaScript would throw.
 */
module Paths {
  import opened Values

  /** `s.split('.')` */
  function Split(s: string): (r: seq<string>)
    ensures |r| >= 1
    decreases |s|
  {
    if s == "" then [""]
    else
      var rest := Split(s[1..]);
      if s[0] == '.' then [""] + rest
      else [[s[0]] + rest[0]] + rest[1..]
  }

  /** `parts.join('.')`, the inverse of `Split`. */
  function Join(parts: seq<string>): string
    requires |parts| >= 1
    decreases |parts|
  {
    if |parts| == 1 then parts[0] else parts[0] + "." + Join(parts[1..])
  }

  lemma {:induction false} JoinSplit(s: string)
    ensures Join(Split(s)) == s
    decreases |s|
  {
    if s != "" {
      var rest := Split(s[1..]);
      JoinSplit(s[1..]);
      assert s == [s[0]] + s[1..];
      if s[0] == '.' {
        assert Split(s)[1..] == rest;
      } else if |rest| == 1 {
        assert Split(s) == [[s[0]] + rest[0]];
        assert s == [s[0]] + s[1..];
      } else {
        var r := Split(s);
        assert r[1..] == rest[1..];
        calc {
          Join(r);
          r[0] + "." + Join(rest[1..]);
          [s[0]] + (rest[0] + "." + Join(rest[1..]));
          [s[0]] + Join(rest);
        }
      }
    }
  }

  /** No segment of a split path contains a dot, and a path splits into several segments exactly when it has a dot. */
  lemma {:induction false} SplitSegments(s: string)
    ensures forall i :: 0 <= i < |Split(s)| ==> '.' !in Split(s)[i]
    ensures '.' in s <==> |Split(s)| > 1
    ensures '.' !in s ==> Split(s) == [s]
    decreases |s|
  {
    if s != "" {
      SplitSegments(s[1..]);
      var rest := Split(s[1..]);
      if s[0] != '.' {
        var r := Split(s);
        assert r[0] == [s[0]] + rest[0];
        forall i | 0 <= i < |r| ensures '.' !in r[i] {
          if i > 0 {
            assert r[i] == rest[i];
          }
        }
        if '.' !in s {
          assert s == [s[0]] + s[1..];
        }
        if '.' in s {
          assert '.' in s[1..] by {
            var k :| 0 <= k < |s| && s[k] == '.';
            assert k > 0 && s[1..][k - 1] == '.';
          }
        }
      }
    }
  }

  /*
   * The write, one segment at a time.
   */

  /**
   * The new value of `item` after the source's walk writes `v` at `keys`
   * below it. Before each step the walk's cursor must be an object: a
   * truthy value of another kind (a number, a string, `true`) cannot take a
   * property, and in a strict-mode module the assignment throws a TypeError.
   * A child that is missing or falsy is replaced by `{}` before the walk
   * descends into it.
   */
  function Walk(item: Val, keys: seq<string>, v: Val): Result<Val>
    requires |keys| >= 1
    decreases |keys|
  {
    if !item.Obj? then TypeError
    else if |keys| == 1 then Success(Obj(item.fields[keys[0] := v]))
    else
      var c := Child(item, keys[0]);
      match Walk(if Truthy(c) then c else EmptyObj, keys[1..], v)
      case TypeError => TypeError
      case Success(n) => Success(Obj(item.fields[keys[0] := n]))
  }

  /** What `setValue(schema, value, data)` returns, or that it throws. */
  function SetValueSpec(schema: string, value: Val, data: Val): Result<Val>
  {
    if schema == "" then Success(data)
    else Walk(if Truthy(data) then data else EmptyObj, Split(schema), Normalise(value))
  }

  /**
   * The record cannot take the write: following `keys` from `d`, the walk
   * meets a truthy value that is not an object before the last key.
   */
  predicate Blocked(d: Val, keys: seq<string>)
    requires |keys| >= 1
    decreases |keys|
  {
    if !d.Obj? then Truthy(d) else |keys| >= 2 && Blocked(Child(d, keys[0]), keys[1..])
  }

  /*
   * The walk's cursor: the node `i` keys below the root, the fact that the
   * first `i` nodes are objects, and replacing the node `i` keys below.
   */

  function NodeAt(d: Val, keys: seq<string>, i: nat): Val
    requires i <= |keys|
    decreases i
  {
    if i == 0 then d else NodeAt(Child(d, keys[0]), keys[1..], i - 1)
  }

  predicate Spine(d: Val, keys: seq<string>, i: nat)
    requires i <= |keys|
    decreases i
  {
    i == 0 || (d.Obj? && Spine(Child(d, keys[0]), keys[1..], i - 1))
  }

  function PutAt(d: Val, keys: seq<string>, i: nat, x: Val): Val
    requires i <= |keys| && Spine(d, keys, i)
    decreases i
  {
    if i == 0 then x
    else Obj(d.fields[keys[0] := PutAt(Child(d, keys[0]), keys[1..], i - 1, x)])
  }

  lemma {:induction false} NodeAtLookup(d: Val, keys: seq<string>, i: nat)
    requires i <= |keys|
    ensures NodeAt(d, keys, i) == Lookup(d, keys[..i])
    decreases i
  {
    if i > 0 {
      NodeAtLookup(Child(d, keys[0]), keys[1..], i - 1);
      assert keys[..i][1..] == keys[1..][..i - 1];
    }
  }

  lemma {:induction false} NodeAtStep(d: Val, keys: seq<string>, i: nat)
    requires i < |keys|
    ensures NodeAt(d, keys, i + 1) == Child(NodeAt(d, keys, i), keys[i])
    decreases i
  {
    if i > 0 {
      NodeAtStep(Child(d, keys[0]), keys[1..], i - 1);
    }
  }

  lemma {:induction false} NodeAtUndef(keys: seq<string>, i: nat)
    requires i <= |keys|
    ensures NodeAt(Undef, keys, i) == Undef
    decreases i
  {
    if i > 0 {
      NodeAtUndef(keys[1..], i - 1);
    }
  }

  lemma {:induction false} SpineGrow(d: Val, keys: seq<string>, i: nat)
    requires i < |keys| && Spine(d, keys, i) && NodeAt(d, keys, i).Obj?
    ensures Spine(d, keys, i + 1)
    decreases i
  {
    if i > 0 {
      SpineGrow(Child(d, keys[0]), keys[1..], i - 1);
    }
  }

  /** On a spine of objects whose end is truthy, a walk that meets a non-object there throws. */
  lemma {:induction false} WalkThrows(d: Val, keys: seq<string>, i: nat, v: Val)
    requires i < |keys| && Spine(d, keys, i)
    requires Truthy(NodeAt(d, keys, i)) && !NodeAt(d, keys, i).Obj?
    ensures Walk(d, keys, v) == TypeError
    decreases i
  {
    if i > 0 {
      var c := Child(d, keys[0]);
      assert Truthy(c) by {
        if i > 1 {
          assert c.Obj?;
        }
      }
      WalkThrows(c, keys[1..], i - 1, v);
    }
  }

  /**
   * Replacing a falsy child at depth `i + 1` by `{}` does not change the
   * outcome of the walk (the walk itself would make the same replacement),
   * and leaves an object there.
   */
  lemma {:induction false} WalkPrepare(d: Val, keys: seq<string>, i: nat, v: Val)
    requires i < |keys| && Spine(d, keys, i + 1)
    requires i > 0 ==> Truthy(NodeAt(d, keys, i))
    requires !Truthy(Child(NodeAt(d, keys, i), keys[i]))
    ensures Spine(PutAt(d, keys, i + 1, EmptyObj), keys, i + 1)
    ensures NodeAt(PutAt(d, keys, i + 1, EmptyObj), keys, i + 1) == EmptyObj
    ensures Walk(PutAt(d, keys, i + 1, EmptyObj), keys, v) == Walk(d, keys, v)
    decreases i
  {
    if i == 0 {
      WalkPrepareRoot(d, keys, v);
    } else {
      var k := keys[0];
      var c := Child(d, k);
      var d' := PutAt(d, keys, i + 1, EmptyObj);
      assert c.Obj?;
      WalkPrepare(c, keys[1..], i - 1, v);
      var c' := PutAt(c, keys[1..], i, EmptyObj);
      assert d' == Obj(d.fields[k := c']);
      assert Child(d', k) == c';
      match Walk(c, keys[1..], v)
      case TypeError =>
      case Success(n) =>
        assert d'.fields[k := n] == d.fields[k := n];
    }
  }

  /** `WalkPrepare` at the root: the first key's falsy child replaced by `{}`. */
  lemma WalkPrepareRoot(d: Val, keys: seq<string>, v: Val)
    requires |keys| >= 1 && d.Obj? && !Truthy(Child(d, keys[0]))
    ensures Spine(PutAt(d, keys, 1, EmptyObj), keys, 1)
    ensures NodeAt(PutAt(d, keys, 1, EmptyObj), keys, 1) == EmptyObj
    ensures Walk(PutAt(d, keys, 1, EmptyObj), keys, v) == Walk(d, keys, v)
  {
    var k := keys[0];
    var d' := PutAt(d, keys, 1, EmptyObj);
    assert d' == Obj(d.fields[k := EmptyObj]);
    assert Child(d', k) == EmptyObj;
    if |keys| == 1 {
      assert d.fields[k := EmptyObj][k := v] == d.fields[k := v];
    } else {
      match Walk(EmptyObj, keys[1..], v)
      case TypeError =>
      case Success(n) =>
        assert d'.fields[k := n] == d.fields[k := n];
    }
  }

  /** Once every node above the last key is an object, the walk is the plain write there. */
  lemma {:induction false} WalkFinish(d: Val, keys: seq<string>, v: Val)
    requires |keys| >= 1 && Spine(d, keys, |keys|)
    ensures Walk(d, keys, v) == Success(PutAt(d, keys, |keys|, v))
    decreases |keys|
  {
    if |keys| > 1 {
      var c := Child(d, keys[0]);
      assert c.Obj?;
      WalkFinish(c, keys[1..], v);
    }
  }

  /**
   * `setValue`: normalise the value, then (for a non-empty schema) start
   * from `{}` if the record is absent and write along the path, creating a
   * map at every missing or falsy segment. A schema without a dot is a
   * single assignment at the top level.
   */
  method SetValue(schema: string, value: Val, data: Val) returns (r: Result<Val>)
    ensures r == SetValueSpec(schema, value, data)
    ensures schema == "" ==> r == Success(data)
  {
    var v := Normalise(value);
    if schema == "" {
      return Success(data);
    }
    var d := if Truthy(data) then data else EmptyObj;
    var keys := Split(schema);
    SplitSegments(schema);
    if '.' in schema {
      r := WritePath(d, keys, v);
    } else {
      if !d.Obj? {
        return TypeError;
      }
      r := Success(Obj(d.fields[schema := v]));
    }
  }

  /** The cursor loop of `setValue` over a dotted path's segments. */
  method WritePath(data: Val, keys: seq<string>, v: Val) returns (r: Result<Val>)
    requires |keys| >= 1 && Truthy(data)
    ensures r == Walk(data, keys, v)
  {
    var d := data;
    var i := 0;
    while i < |keys|
      invariant 0 <= i <= |keys|
      invariant Spine(d, keys, i) && Truthy(NodeAt(d, keys, i))
      invariant Walk(d, keys, v) == Walk(data, keys, v)
    {
      var item := NodeAt(d, keys, i);
      if !item.Obj? {
        WalkThrows(d, keys, i, v);
        return TypeError;
      }
      SpineGrow(d, keys, i);
      NodeAtStep(d, keys, i);
      if !Truthy(Child(item, keys[i])) {
        WalkPrepare(d, keys, i, v);
        d := PutAt(d, keys, i + 1, EmptyObj);
      }
      i := i + 1;
    }
    WalkFinish(d, keys, v);
    r := Success(PutAt(d, keys, |keys|, v));
  }

  /*
   * What a write promises.
   */

  lemma {:induction false} WalkRoundTrip(item: Val, keys: seq<string>, v: Val)
    requires |keys| >= 1 && Walk(item, keys, v).Success?
    ensures Lookup(Walk(item, keys, v).value, keys) == v
    decreases |keys|
  {
    var r := Walk(item, keys, v).value;
    assert Child(r, keys[0]) == r.fields[keys[0]];
    if |keys| > 1 {
      var c := Child(item, keys[0]);
      WalkRoundTrip(if Truthy(c) then c else EmptyObj, keys[1..], v);
    }
  }

  /** Reading the record back along the schema yields the normalised value that was written. */
  lemma SetValueRoundTrip(schema: string, value: Val, data: Val)
    requires schema != "" && SetValueSpec(schema, value, data).Success?
    ensures Lookup(SetValueSpec(schema, value, data).value, Split(schema)) == Normalise(value)
  {
    WalkRoundTrip(if Truthy(data) then data else EmptyObj, Split(schema), Normalise(value));
  }

  lemma {:induction false} WalkFrame(item: Val, keys: seq<string>, v: Val, q: seq<string>, j: nat)
    requires |keys| >= 1 && Walk(item, keys, v).Success?
    requires j < |keys| && j < |q| && q[..j] == keys[..j] && q[j] != keys[j]
    ensures Lookup(Walk(item, keys, v).value, q) == Lookup(item, q)
    decreases j
  {
    var r := Walk(item, keys, v).value;
    var k := keys[0];
    if j == 0 {
      assert Child(r, q[0]) == Child(item, q[0]);
    } else {
      assert q[0] == keys[..j][0] == k;
      var c := Child(item, k);
      var next := if Truthy(c) then c else EmptyObj;
      assert q[1..][..j - 1] == q[..j][1..] == keys[..j][1..] == keys[1..][..j - 1];
      WalkFrame(next, keys[1..], v, q[1..], j - 1);
      assert Child(r, k) == Walk(next, keys[1..], v).value;
      if !Truthy(c) {
        assert !c.Obj?;
        LookupBelowScalar(c, q[1..]);
        LookupBelowScalar(Undef, q[1..]);
        assert Lookup(next, q[1..]) == Undef by {
          assert Child(next, q[1]) == Undef;
          LookupUndef(q[2..]);
        }
      }
    }
  }

  /**
   * Every path that leaves the schema's path at some segment reads the same
   * value before and after the write: nothing off the path changes.
   */
  lemma SetValueFrame(schema: string, value: Val, data: Val, q: seq<string>, j: nat)
    requires schema != "" && SetValueSpec(schema, value, data).Success?
    requires j < |Split(schema)| && j < |q| && q[..j] == Split(schema)[..j] && q[j] != Split(schema)[j]
    ensures Lookup(SetValueSpec(schema, value, data).value, q) == Lookup(data, q)
  {
    var base := if Truthy(data) then data else EmptyObj;
    WalkFrame(base, Split(schema), Normalise(value), q, j);
    if !Truthy(data) {
      LookupBelowScalar(data, q);
      assert Lookup(base, q) == Undef by {
        LookupUndef(q[1..]);
      }
    }
  }

  lemma {:induction false} WalkSpine(item: Val, keys: seq<string>, v: Val)
    requires |keys| >= 1 && Walk(item, keys, v).Success?
    ensures Spine(Walk(item, keys, v).value, keys, |keys|)
    decreases |keys|
  {
    if |keys| > 1 {
      var c := Child(item, keys[0]);
      WalkSpine(if Truthy(c) then c else EmptyObj, keys[1..], v);
    }
  }

  lemma {:induction false} SpineNodes(d: Val, keys: seq<string>, i: nat, j: nat)
    requires i <= |keys| && Spine(d, keys, i) && j < i
    ensures NodeAt(d, keys, j).Obj?
    decreases i
  {
    if j > 0 {
      SpineNodes(Child(d, keys[0]), keys[1..], i - 1, j - 1);
    }
  }

  lemma {:induction false} WalkEmpty(keys: seq<string>, v: Val)
    requires |keys| >= 1
    ensures Walk(EmptyObj, keys, v).Success?
    ensures Walk(EmptyObj, keys, v).value.Obj?
    ensures Walk(EmptyObj, keys, v).value.fields.Keys == {keys[0]}
    decreases |keys|
  {
    if |keys| > 1 {
      WalkEmpty(keys[1..], v);
    }
  }

  lemma {:induction false} WalkFresh(item: Val, keys: seq<string>, v: Val, j: nat)
    requires |keys| >= 1 && Walk(item, keys, v).Success?
    requires j < |keys|
    requires if j == 0 then item == EmptyObj else !Truthy(NodeAt(item, keys, j))
    ensures NodeAt(Walk(item, keys, v).value, keys, j).Obj?
    ensures NodeAt(Walk(item, keys, v).value, keys, j).fields.Keys == {keys[j]}
    decreases j
  {
    var r := Walk(item, keys, v).value;
    if j == 0 {
      WalkEmpty(keys, v);
    } else {
      var c := Child(item, keys[0]);
      var next := if Truthy(c) then c else EmptyObj;
      assert Child(r, keys[0]) == Walk(next, keys[1..], v).value;
      if Truthy(c) {
        WalkFresh(c, keys[1..], v, j - 1);
      } else {
        if j > 1 {
          NodeAtUndef(keys[2..], j - 2);
          assert keys[1..][1..] == keys[2..];
          assert NodeAt(EmptyObj, keys[1..], j - 1) == NodeAt(Undef, keys[2..], j - 2);
        }
        WalkFresh(EmptyObj, keys[1..], v, j - 1);
      }
    }
  }

  /**
   * After a write every segment above the last is an object, and each one
   * that was missing or falsy before (including an absent record) is now a
   * new map holding only the next segment of the path.
   */
  lemma SetValueIntermediates(schema: string, value: Val, data: Val)
    requires schema != "" && SetValueSpec(schema, value, data).Success?
    ensures forall j :: 0 <= j < |Split(schema)| ==>
      Lookup(SetValueSpec(schema, value, data).value, Split(schema)[..j]).Obj?
    ensures forall j :: 0 <= j < |Split(schema)| && !Truthy(Lookup(data, Split(schema)[..j])) ==>
      Lookup(SetValueSpec(schema, value, data).value, Split(schema)[..j]).fields.Keys == {Split(schema)[j]}
  {
    var keys := Split(schema);
    var v := Normalise(value);
    var base := if Truthy(data) then data else EmptyObj;
    var r := SetValueSpec(schema, value, data).value;
    WalkSpine(base, keys, v);
    forall j | 0 <= j < |keys|
      ensures Lookup(r, keys[..j]).Obj?
    {
      SpineNodes(r, keys, |keys|, j);
      NodeAtLookup(r, keys, j);
    }
    forall j | 0 <= j < |keys| && !Truthy(Lookup(data, keys[..j]))
      ensures Lookup(r, keys[..j]).fields.Keys == {keys[j]}
    {
      NodeAtLookup(r, keys, j);
      NodeAtLookup(data, keys, j);
      if Truthy(data) {
        assert j > 0;
        WalkFresh(base, keys, v, j);
      } else {
        if j > 0 {
          NodeAtUndef(keys[1..], j - 1);
          assert NodeAt(EmptyObj, keys, j) == NodeAt(Undef, keys[1..], j - 1);
        }
        WalkFresh(base, keys, v, j);
      }
    }
  }

  lemma {:induction false} WalkThrowsIff(item: Val, keys: seq<string>, v: Val)
    requires |keys| >= 1 && Truthy(item)
    ensures Walk(item, keys, v) == TypeError <==> Blocked(item, keys)
    decreases |keys|
  {
    if item.Obj? && |keys| > 1 {
      var c := Child(item, keys[0]);
      if Truthy(c) {
        WalkThrowsIff(c, keys[1..], v);
      } else {
        WalkEmpty(keys[1..], v);
        assert !Blocked(c, keys[1..]);
      }
    }
  }

  /**
   * A write throws exactly when the schema is non-empty and the record
   * holds a truthy non-object where the path needs a map.
   */
  lemma SetValueThrowsIff(schema: string, value: Val, data: Val)
    ensures SetValueSpec(schema, value, data) == TypeError <==> schema != "" && Blocked(data, Split(schema))
  {
    if schema != "" {
      var keys := Split(schema);
      if Truthy(data) {
        WalkThrowsIff(data, keys, Normalise(value));
      } else {
        WalkThrowsIff(EmptyObj, keys, Normalise(value));
        if |keys| > 1 {
          assert !Blocked(Undef, keys[1..]);
        }
      }
    }
  }

  /** A schema without a dot assigns one key of the (possibly fresh) top-level map. */
  lemma SetValueTopLevel(schema: string, value: Val, data: Val)
    requires schema != "" && '.' !in schema
    ensures var base := if Truthy(data) then data else EmptyObj;
      SetValueSpec(schema, value, data)
        == if base.Obj? then Success(Obj(base.fields[schema := Normalise(value)])) else TypeError
  {
    SplitSegments(schema);
  }
}
