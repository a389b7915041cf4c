/** Sequence helpers shared by the registries: `Array.prototype.find`,
    `Array.prototype.filter` and the properties the registries keep. */
module Seqs {
  import opened Wrappers

  /** `sub` is obtained from `s` by deleting elements, so survivors keep their relative order. */
  ghost predicate IsSubsequence<T>(sub: seq<T>, s: seq<T>)
    decreases |s|
  {
    if |sub| == 0 then true
    else if |s| == 0 then false
    else (sub[0] == s[0] && IsSubsequence(sub[1..], s[1..])) || IsSubsequence(sub, s[1..])
  }

  /** Every two elements at distinct positions are related by `ok`. */
  ghost predicate Pairwise<T>(s: seq<T>, ok: (T, T) -> bool)
  {
    forall i, j :: 0 <= i < j < |s| ==> ok(s[i], s[j])
  }

  /** The index of the first element satisfying `p`, as `find`/`findIndex` do. */
  function FindFirst<T>(s: seq<T>, p: T -> bool): (r: Option<nat>)
    ensures r.None? <==> forall i :: 0 <= i < |s| ==> !p(s[i])
    ensures r.Some? ==> r.value < |s| && p(s[r.value])
    ensures r.Some? ==> forall i :: 0 <= i < r.value ==> !p(s[i])
  {
    if |s| == 0 then None
    else if p(s[0]) then Some(0)
    else match FindFirst(s[1..], p)
      case None => None
      case Some(k) => Some(k + 1)
  }

  /** The elements of `s` whose key is not in `dead`, in their original order: what
      `s.filter(x => !dead.has(x.id))` computes. */
  function RemoveKeys<T>(s: seq<T>, key: T -> int, dead: set<int>): (r: seq<T>)
    ensures |r| <= |s|
    ensures forall i :: 0 <= i < |r| ==> key(r[i]) !in dead && r[i] in s
    ensures forall x :: x in s && key(x) !in dead ==> x in r
    ensures IsSubsequence(r, s)
  {
    if |s| == 0 then []
    else if key(s[0]) !in dead then
      var rest := RemoveKeys(s[1..], key, dead);
      assert ([s[0]] + rest)[1..] == rest;
      [s[0]] + rest
    else RemoveKeys(s[1..], key, dead)
  }

  /** Removing elements keeps every pairwise property of the original sequence. */
  lemma {:induction false} RemoveKeysPairwise<T>(s: seq<T>, key: T -> int, dead: set<int>, ok: (T, T) -> bool)
    requires Pairwise(s, ok)
    ensures Pairwise(RemoveKeys(s, key, dead), ok)
  {
    if |s| > 0 {
      var rest := RemoveKeys(s[1..], key, dead);
      assert Pairwise(s[1..], ok) by {
        forall i, j | 0 <= i < j < |s[1..]| ensures ok(s[1..][i], s[1..][j]) {
          assert s[1..][i] == s[i + 1] && s[1..][j] == s[j + 1];
        }
      }
      RemoveKeysPairwise(s[1..], key, dead, ok);
      if key(s[0]) !in dead {
        var r := [s[0]] + rest;
        assert forall x :: x in rest ==> ok(s[0], x) by {
          forall x | x in rest ensures ok(s[0], x) {
            assert x in s[1..];
            var m :| 0 <= m < |s[1..]| && s[1..][m] == x;
            assert s[m + 1] == x;
          }
        }
        forall i, j | 0 <= i < j < |r| ensures ok(r[i], r[j]) {
          assert r[j] == rest[j - 1];
          if i > 0 {
            assert r[i] == rest[i - 1];
          }
        }
      }
    }
  }

  /** Removing one set of keys and then another removes their union. */
  lemma {:induction false} RemoveKeysTwice<T>(s: seq<T>, key: T -> int, a: set<int>, b: set<int>)
    ensures RemoveKeys(RemoveKeys(s, key, a), key, b) == RemoveKeys(s, key, a + b)
  {
    if |s| > 0 {
      RemoveKeysTwice(s[1..], key, a, b);
      if key(s[0]) !in a {
        var inner := RemoveKeys(s[1..], key, a);
        assert RemoveKeys(s, key, a) == [s[0]] + inner;
        assert ([s[0]] + inner)[1..] == inner;
      }
    }
  }

  /** Removing keys no element has returns the sequence unchanged. */
  lemma {:induction false} RemoveKeysAbsent<T>(s: seq<T>, key: T -> int, dead: set<int>)
    requires forall i :: 0 <= i < |s| ==> key(s[i]) !in dead
    ensures RemoveKeys(s, key, dead) == s
  {
    if |s| > 0 {
      RemoveKeysAbsent(s[1..], key, dead);
      assert [s[0]] + s[1..] == s;
    }
  }

  /** The keys of the elements of `s`. */
  ghost function Keys<T>(s: seq<T>, key: T -> int): set<int>
  {
    set i | 0 <= i < |s| :: key(s[i])
  }

  /** Two sets of keys that agree on the keys present remove the same elements. */
  lemma {:induction false} RemoveKeysAgree<T>(s: seq<T>, key: T -> int, a: set<int>, b: set<int>)
    requires forall i :: 0 <= i < |s| ==> (key(s[i]) in a <==> key(s[i]) in b)
    ensures RemoveKeys(s, key, a) == RemoveKeys(s, key, b)
  {
    if |s| > 0 {
      assert forall i :: 0 <= i < |s[1..]| ==> s[1..][i] == s[i + 1];
      RemoveKeysAgree(s[1..], key, a, b);
    }
  }

  /** With unique keys, removing a set of keys that all occur removes exactly one
      element per key. */
  lemma {:induction false} RemoveKeysCount<T>(s: seq<T>, key: T -> int, dead: set<int>)
    requires forall i, j :: 0 <= i < j < |s| ==> key(s[i]) != key(s[j])
    requires dead <= Keys(s, key)
    ensures |RemoveKeys(s, key, dead)| == |s| - |dead|
  {
    if |s| == 0 {
      assert dead == {};
    } else {
      var rest := s[1..];
      var k := key(s[0]);
      var dead' := dead - {k};
      assert forall i :: 0 <= i < |rest| ==> rest[i] == s[i + 1];
      assert forall i :: 0 <= i < |rest| ==> key(rest[i]) != k;
      assert dead' <= Keys(rest, key) by {
        forall x | x in dead' ensures x in Keys(rest, key) {
          var i :| 0 <= i < |s| && key(s[i]) == x;
          assert i != 0;
          assert key(rest[i - 1]) == x;
        }
      }
      RemoveKeysCount(rest, key, dead');
      if k in dead {
        assert |dead'| == |dead| - 1;
        assert RemoveKeys(s, key, dead) == RemoveKeys(rest, key, dead);
        RemoveKeysAgree(rest, key, dead, dead');
      } else {
        assert dead' == dead;
        assert RemoveKeys(s, key, dead) == [s[0]] + RemoveKeys(rest, key, dead);
      }
    }
  }

  /** No value occurs twice in `s`. */
  ghost predicate Distinct<T>(s: seq<T>)
  {
    forall i, j :: 0 <= i < j < |s| ==> s[i] != s[j]
  }

  ghost function Elements<T>(s: seq<T>): set<T>
  {
    set i | 0 <= i < |s| :: s[i]
  }

  /** A sequence without repeats has as many elements as its set of values. */
  lemma {:induction false} DistinctCardinality<T>(s: seq<T>)
    requires Distinct(s)
    ensures |Elements(s)| == |s|
  {
    if |s| > 0 {
      var rest := s[1..];
      assert Distinct(rest) by {
        forall i, j | 0 <= i < j < |rest| ensures rest[i] != rest[j] {
          assert rest[i] == s[i + 1] && rest[j] == s[j + 1];
        }
      }
      DistinctCardinality(rest);
      assert Elements(s) == {s[0]} + Elements(rest) by {
        forall x | x in Elements(s) ensures x in {s[0]} + Elements(rest) {
          var i :| 0 <= i < |s| && s[i] == x;
          if i > 0 {
            assert rest[i - 1] == x;
          }
        }
        forall x | x in Elements(rest) ensures x in Elements(s) {
          var i :| 0 <= i < |rest| && rest[i] == x;
          assert s[i + 1] == x;
        }
      }
      assert s[0] !in Elements(rest) by {
        forall i | 0 <= i < |rest| ensures rest[i] != s[0] {
          assert rest[i] == s[i + 1];
        }
      }
    }
  }

  /** Removing the keys of two pieces is removing them from each piece. */
  lemma {:induction false} RemoveKeysAppend<T>(a: seq<T>, b: seq<T>, key: T -> int, dead: set<int>)
    ensures RemoveKeys(a + b, key, dead) == RemoveKeys(a, key, dead) + RemoveKeys(b, key, dead)
  {
    if |a| > 0 {
      assert (a + b)[0] == a[0];
      assert (a + b)[1..] == a[1..] + b;
      RemoveKeysAppend(a[1..], b, key, dead);
    } else {
      assert a + b == b;
    }
  }

  /** Removing the key of a last element that alone has it leaves the prefix. */
  lemma RemoveKeysLast<T>(a: seq<T>, x: T, key: T -> int, k: int)
    requires key(x) == k
    requires forall i :: 0 <= i < |a| ==> key(a[i]) != k
    ensures RemoveKeys(a + [x], key, {k}) == a
  {
    RemoveKeysAppend(a, [x], key, {k});
    RemoveKeysAbsent(a, key, {k});
    assert RemoveKeys([x], key, {k}) == RemoveKeys([x][1..], key, {k});
    assert a + [] == a;
  }

  /** Removing the one key of the middle element of a + [x] + b leaves a + b. */
  lemma RemoveKeysSplice<T>(a: seq<T>, x: T, b: seq<T>, key: T -> int, k: int)
    requires key(x) == k
    requires forall i :: 0 <= i < |a| ==> key(a[i]) != k
    requires forall i :: 0 <= i < |b| ==> key(b[i]) != k
    ensures RemoveKeys(a + [x] + b, key, {k}) == a + b
  {
    RemoveKeysLast(a, x, key, k);
    RemoveKeysAbsent(b, key, {k});
    RemoveKeysAppend(a + [x], b, key, {k});
  }
}
