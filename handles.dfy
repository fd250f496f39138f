/** The adapters' `file_handles` dict: keys are the integer handles given
    out by `open`, values the names of the device-side file objects. A
    Python dict remembers insertion order, which `destroy` walks, so the
    table is a map together with the sequence of its keys in that order.
    Also the calls `destroy` makes while it releases the handles. */
module Handles {
  import opened Text
  import opened Board

  /** The device-side variable bound to handle `n`: `"fh_{}".format(n)`. */
  function HandleName(n: nat): (name: string)
    ensures |name| > 3 && name[..3] == "fh_"
  {
    "fh_" + NatToString(n)
  }

  /** The expression `'{}.{}'.format(var, command)` the adapters evaluate
      for a method call on a device object. */
  function Dotted(obj: string, command: string): string {
    obj + "." + command
  }

  /** The same method called on two objects gives two expressions. */
  lemma {:induction false} DottedInjective(a: string, b: string, command: string)
    requires Dotted(a, command) == Dotted(b, command)
    ensures a == b
  {
    assert |a| == |b|;
    assert a == Dotted(a, command)[..|a|];
    assert b == Dotted(b, command)[..|b|];
  }

  /** The device expression that opens `path` in `mode`. */
  function OpenFile(path: string, mode: string): string {
    "open(\"" + path + "\", \"" + mode + "\")"
  }

  /** Distinct handles name distinct device variables. */
  lemma {:induction false} HandleNameInjective(a: nat, b: nat)
    requires HandleName(a) == HandleName(b)
    ensures a == b
  {
    assert HandleName(a)[3..] == NatToString(a);
    assert HandleName(b)[3..] == NatToString(b);
    NatToStringInjective(a, b);
  }

  /** A set holding every number below `n` has at least `n` elements. */
  lemma {:induction false} LowerBoundCard(keys: set<int>, n: nat)
    requires forall j :: 0 <= j < n ==> j in keys
    ensures n <= |keys|
  {
    if n > 0 {
      var smaller := keys - {n - 1};
      LowerBoundCard(smaller, n - 1);
      assert keys == smaller + {n - 1};
    }
  }

  /** The first number from `k` on that is not a key, when every number
      below `k` is one. */
  function SmallestFreeFrom(keys: set<int>, k: nat): (n: nat)
    requires forall j :: 0 <= j < k ==> j in keys
    ensures k <= n && n !in keys
    ensures forall j :: 0 <= j < n ==> j in keys
    decreases |keys| - k
  {
    if k in keys then
      LowerBoundCard(keys, k + 1);
      SmallestFreeFrom(keys, k + 1)
    else k
  }

  /** The handle `open` hands out: the smallest non-negative integer that is
      not in use. */
  function SmallestFree(keys: set<int>): (n: nat)
    ensures n !in keys
    ensures forall j :: 0 <= j < n ==> j in keys
  {
    SmallestFreeFrom(keys, 0)
  }

  /** Those two facts pin the handle down. */
  lemma {:induction false} SmallestFreeUnique(keys: set<int>, n: nat)
    requires n !in keys
    requires forall j :: 0 <= j < n ==> j in keys
    ensures n == SmallestFree(keys)
  {
    var m := SmallestFree(keys);
    assert n < m ==> n in keys;
    assert m < n ==> m in keys;
  }

  /** Releasing handle `k` while every handle below it is in use makes `k`
      the one the next open hands out. */
  lemma {:induction false} SmallestFreeReusesReleased(keys: set<int>, k: nat)
    requires forall j :: 0 <= j < k ==> j in keys
    ensures SmallestFree(keys - {k}) == k
  {
    SmallestFreeUnique(keys - {k}, k);
  }

  /** `s` without the elements equal to `k`, the others in their order. */
  function Remove(s: seq<int>, k: int): (r: seq<int>)
    ensures |r| <= |s|
    ensures forall x :: x in r <==> x in s && x != k
  {
    if s == [] then []
    else if s[0] == k then Remove(s[1..], k)
    else [s[0]] + Remove(s[1..], k)
  }

  /** Each element occurs once. */
  predicate NoDuplicates(s: seq<int>) {
    s == [] || (s[0] !in s[1..] && NoDuplicates(s[1..]))
  }

  /** Two positions hold different elements. */
  lemma {:induction false} NoDuplicatesAt(s: seq<int>, i: nat, j: nat)
    requires NoDuplicates(s) && i < j < |s|
    ensures s[i] != s[j]
  {
    if i == 0 {
      assert s[j] == s[1..][j - 1];
    } else {
      NoDuplicatesAt(s[1..], i - 1, j - 1);
    }
  }

  lemma {:induction false} RemoveKeepsNoDuplicates(s: seq<int>, k: int)
    requires NoDuplicates(s)
    ensures NoDuplicates(Remove(s, k))
  {
    if s != [] {
      RemoveKeepsNoDuplicates(s[1..], k);
      if s[0] != k {
        var r := Remove(s[1..], k);
        assert ([s[0]] + r)[0] == s[0] && ([s[0]] + r)[1..] == r;
      }
    }
  }

  lemma {:induction false} AppendKeepsNoDuplicates(s: seq<int>, n: int)
    requires NoDuplicates(s) && n !in s
    ensures NoDuplicates(s + [n])
  {
    if s == [] {
      assert [] + [n] == [n];
      assert [n][1..] == [];
    } else {
      assert (s + [n])[1..] == s[1..] + [n];
      AppendKeepsNoDuplicates(s[1..], n);
      assert s[0] !in s[1..] + [n];
    }
  }

  /** Removing the first element of a sequence without duplicates leaves the
      rest. */
  lemma {:induction false} RemoveFirst(s: seq<int>)
    requires s != [] && NoDuplicates(s)
    ensures Remove(s, s[0]) == s[1..]
  {
    RemoveAbsent(s[1..], s[0]);
  }

  /** Taking back the handle just added restores the order. */
  lemma {:induction false} RemoveLast(s: seq<int>, k: int)
    requires k !in s
    ensures Remove(s + [k], k) == s
  {
    if s == [] {
      assert [] + [k] == [k];
      assert Remove([k], k) == Remove([], k);
    } else {
      assert (s + [k])[1..] == s[1..] + [k];
      RemoveLast(s[1..], k);
      assert [s[0]] + s[1..] == s;
    }
  }

  lemma {:induction false} RemoveAbsent(s: seq<int>, k: int)
    requires k !in s
    ensures Remove(s, k) == s
  {
    if s != [] {
      RemoveAbsent(s[1..], k);
      assert [s[0]] + s[1..] == s;
    }
  }

  /** The table's invariant: `order` lists each key once, every handle is a
      non-negative integer and is bound to its own name. */
  ghost predicate WellFormed(handles: map<int, string>, order: seq<int>) {
    && NoDuplicates(order)
    && (forall k :: k in handles ==> k in order)
    && (forall i :: 0 <= i < |order| ==> order[i] in handles)
    && (forall k :: k in handles ==> k >= 0)
    && (forall k :: k in handles && k >= 0 ==> handles[k] == HandleName(k))
  }

  /** The handle at position `i` of the order. */
  lemma {:induction false} WellFormedAt(handles: map<int, string>, order: seq<int>, i: nat)
    requires WellFormed(handles, order) && i < |order|
    ensures order[i] in handles && order[i] >= 0 && handles[order[i]] == HandleName(order[i])
  {
    var k := order[i];
    assert k in handles;
    assert k >= 0 && handles[k] == HandleName(k);
  }

  /** Adding a fresh handle at the end keeps the table well formed. */
  lemma {:induction false} AddKeepsWellFormed(handles: map<int, string>, order: seq<int>, n: nat)
    requires WellFormed(handles, order) && n !in handles
    ensures WellFormed(handles[n := HandleName(n)], order + [n])
  {
    AppendKeepsNoDuplicates(order, n);
    var o := order + [n];
    forall i | 0 <= i < |o| ensures o[i] in handles[n := HandleName(n)] {
      if i < |order| { assert o[i] == order[i]; }
    }
  }

  /** Deleting a handle keeps the table well formed. */
  lemma {:induction false} DeleteKeepsWellFormed(handles: map<int, string>, order: seq<int>, k: int)
    requires WellFormed(handles, order)
    ensures WellFormed(handles - {k}, Remove(order, k))
  {
    RemoveKeepsNoDuplicates(order, k);
    var r := Remove(order, k);
    forall i | 0 <= i < |r| ensures r[i] in handles - {k} {
      assert r[i] in r;
    }
  }

  /** Every key of a well-formed table is one of the positions of `order`,
      so a table is empty exactly when its order is. */
  lemma {:induction false} EmptyOrderEmptyTable(handles: map<int, string>, order: seq<int>)
    requires WellFormed(handles, order)
    ensures order == [] <==> handles == map[]
  {
    if order != [] {
      assert order[0] in handles;
    } else {
      assert forall k :: k !in handles;
    }
  }

  /** The calls that releasing the handles `ks` one after the other makes. */
  function CloseCalls(handles: map<int, string>, ks: seq<int>): (calls: seq<Call>)
    requires forall i :: 0 <= i < |ks| ==> ks[i] in handles
    ensures |calls| == |ks|
  {
    if ks == [] then [] else [Call.Eval(Dotted(handles[ks[0]], "close()"))] + CloseCalls(handles, ks[1..])
  }

  /** The i-th call closes the i-th handle. */
  lemma {:induction false} CloseCallsAt(handles: map<int, string>, ks: seq<int>, i: nat)
    requires forall j :: 0 <= j < |ks| ==> ks[j] in handles
    requires i < |ks|
    ensures CloseCalls(handles, ks)[i] == Call.Eval(Dotted(handles[ks[i]], "close()"))
  {
    if i > 0 {
      CloseCallsAt(handles, ks[1..], i - 1);
    }
  }

  lemma {:induction false} CloseCallsSnoc(handles: map<int, string>, ks: seq<int>, k: int)
    requires forall i :: 0 <= i < |ks| ==> ks[i] in handles
    requires k in handles
    ensures CloseCalls(handles, ks + [k]) == CloseCalls(handles, ks) + [Call.Eval(Dotted(handles[k], "close()"))]
  {
    var l := CloseCalls(handles, ks + [k]);
    var r := CloseCalls(handles, ks) + [Call.Eval(Dotted(handles[k], "close()"))];
    assert |l| == |r|;
    forall i | 0 <= i < |l| ensures l[i] == r[i] {
      CloseCallsAt(handles, ks + [k], i);
      if i < |ks| {
        assert (ks + [k])[i] == ks[i];
        CloseCallsAt(handles, ks, i);
      }
    }
  }

  /** On a well-formed table, teardown closes every open file exactly once:
      the i-th close names the variable of the i-th handle opened, and no
      two closes name the same variable. */
  lemma {:induction false} CloseCallsCloseEachOnce(handles: map<int, string>, order: seq<int>)
    requires WellFormed(handles, order)
    ensures forall i :: 0 <= i < |order| ==>
              order[i] >= 0 && CloseCalls(handles, order)[i] == Call.Eval(Dotted(HandleName(order[i]), "close()"))
    ensures forall i, j :: 0 <= i < j < |order| ==> CloseCalls(handles, order)[i] != CloseCalls(handles, order)[j]
  {
    var calls := CloseCalls(handles, order);
    forall i | 0 <= i < |order|
      ensures order[i] >= 0 && calls[i] == Call.Eval(Dotted(HandleName(order[i]), "close()"))
    {
      WellFormedAt(handles, order, i);
      CloseCallsAt(handles, order, i);
    }
    forall i, j | 0 <= i < j < |order| ensures calls[i] != calls[j] {
      WellFormedAt(handles, order, i);
      WellFormedAt(handles, order, j);
      CloseCallsAt(handles, order, i);
      CloseCallsAt(handles, order, j);
      NoDuplicatesAt(order, i, j);
      if calls[i] == calls[j] {
        DottedInjective(HandleName(order[i]), HandleName(order[j]), "close()");
        HandleNameInjective(order[i], order[j]);
      }
    }
  }

  lemma {:induction false} SliceSnoc(s: seq<int>, i: nat)
    requires i < |s|
    ensures s[..i + 1] == s[..i] + [s[i]]
  {
  }

  /** One step of teardown: the next handle in line is the first of the
      table's order, and closing it extends the calls made so far by one. */
  lemma {:induction false} ReleaseStep(log0: seq<Call>, handles0: map<int, string>, fhs: seq<int>, i: nat,
                                       handles: map<int, string>, order: seq<int>)
    requires WellFormed(handles0, fhs) && WellFormed(handles, order)
    requires i < |fhs| && order == fhs[i..]
    ensures fhs[i] in handles && handles[fhs[i]] == handles0[fhs[i]]
    ensures Remove(order, fhs[i]) == fhs[i + 1..]
    ensures log0 + CloseCalls(handles0, fhs[..i + 1])
            == log0 + CloseCalls(handles0, fhs[..i]) + [Call.Eval(Dotted(handles[fhs[i]], "close()"))]
  {
    WellFormedAt(handles, order, 0);
    WellFormedAt(handles0, fhs, i);
    RemoveFirst(order);
    SliceSnoc(fhs, i);
    forall j | 0 <= j < i ensures fhs[..i][j] in handles0 {
      WellFormedAt(handles0, fhs, j);
    }
    CloseCallsSnoc(handles0, fhs[..i], fhs[i]);
    assert log0 + (CloseCalls(handles0, fhs[..i]) + [Call.Eval(Dotted(handles[fhs[i]], "close()"))])
        == log0 + CloseCalls(handles0, fhs[..i]) + [Call.Eval(Dotted(handles[fhs[i]], "close()"))];
  }
}
