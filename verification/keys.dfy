/**
 * Primary keys and the order in which a table scan returns rows.
 * Room stores ids as TEXT, which SQLite compares with the BINARY collation: byte-wise on
 * UTF-8, which is the same as comparing code points one by one.
 */
module Keys {

  /** Strict lexicographic order on strings. */
  predicate Less(a: string, b: string)
    decreases |a|
  {
    if |b| == 0 then false
    else if |a| == 0 then true
    else if a[0] != b[0] then a[0] < b[0]
    else Less(a[1..], b[1..])
  }

  lemma {:induction false} LessIrreflexive(a: string)
    ensures !Less(a, a)
    decreases |a|
  {
    if |a| > 0 {
      LessIrreflexive(a[1..]);
    }
  }

  lemma {:induction false} LessAsymmetric(a: string, b: string)
    requires Less(a, b)
    ensures !Less(b, a)
    decreases |a|
  {
    if |a| > 0 && a[0] == b[0] {
      LessAsymmetric(a[1..], b[1..]);
    }
  }

  lemma {:induction false} LessTransitive(a: string, b: string, c: string)
    requires Less(a, b) && Less(b, c)
    ensures Less(a, c)
    decreases |a|
  {
    if |a| > 0 && a[0] == b[0] && b[0] == c[0] {
      LessTransitive(a[1..], b[1..], c[1..]);
    }
  }

  lemma {:induction false} LessTotal(a: string, b: string)
    requires a != b
    ensures Less(a, b) || Less(b, a)
    decreases |a|
  {
    if |a| > 0 && |b| > 0 && a[0] == b[0] {
      assert a == [a[0]] + a[1..] && b == [b[0]] + b[1..];
      LessTotal(a[1..], b[1..]);
    }
  }

  /** `k` is the smallest key of `s`. */
  predicate IsLeast(k: string, s: set<string>)
  {
    k in s && forall y :: y in s && y != k ==> Less(k, y)
  }

  lemma {:induction false} LeastExists(s: set<string>)
    requires s != {}
    ensures exists k :: IsLeast(k, s)
    decreases |s|
  {
    var x :| x in s;
    var rest := s - {x};
    if rest == {} {
      assert s == {x};
      assert IsLeast(x, s);
    } else {
      LeastExists(rest);
      var m :| IsLeast(m, rest);
      if Less(x, m) {
        forall y | y in s && y != x
          ensures Less(x, y)
        {
          if y != m {
            LessTransitive(x, m, y);
          }
        }
        assert IsLeast(x, s);
      } else {
        if x != m {
          LessTotal(x, m);
        }
        assert IsLeast(m, s);
      }
    }
  }

  lemma LeastUnique(s: set<string>)
    ensures forall a, b :: IsLeast(a, s) && IsLeast(b, s) ==> a == b
  {
    forall a, b | IsLeast(a, s) && IsLeast(b, s)
      ensures a == b
    {
      if a != b {
        LessAsymmetric(a, b);
      }
    }
  }

  /** The keys of `s` in ascending order: the order of a scan over the primary-key index. */
  function Ascending(s: set<string>): (r: seq<string>)
    ensures |r| == |s|
    ensures forall k :: k in r <==> k in s
    ensures forall i, j :: 0 <= i < j < |r| ==> Less(r[i], r[j])
    decreases |s|
  {
    if s == {} then []
    else
      LeastExists(s);
      LeastUnique(s);
      var k :| IsLeast(k, s);
      var rest := Ascending(s - {k});
      LeastFirst(k, s, rest);
      [k] + rest
  }

  /** The least key followed by the rest in ascending order is the whole set in ascending order. */
  lemma LeastFirst(k: string, s: set<string>, rest: seq<string>)
    requires IsLeast(k, s)
    requires |rest| == |s - {k}|
    requires forall x :: x in rest <==> x in s - {k}
    requires forall i, j :: 0 <= i < j < |rest| ==> Less(rest[i], rest[j])
    ensures |[k] + rest| == |s|
    ensures forall x :: x in [k] + rest <==> x in s
    ensures forall i, j :: 0 <= i < j < |[k] + rest| ==> Less(([k] + rest)[i], ([k] + rest)[j])
  {
    assert forall j :: 0 <= j < |rest| ==> rest[j] in rest && rest[j] in s - {k};
    assert forall j :: 0 <= j < |rest| ==> Less(k, rest[j]);
    var r := [k] + rest;
    forall i, j | 0 <= i < j < |r|
      ensures Less(r[i], r[j])
    {
      assert r[j] == rest[j - 1];
      if i > 0 {
        assert r[i] == rest[i - 1];
      }
    }
  }

  /** Strictly ascending keys are pairwise distinct. */
  lemma AscendingDistinct(r: seq<string>)
    requires forall i, j :: 0 <= i < j < |r| ==> Less(r[i], r[j])
    ensures forall i, j :: 0 <= i < |r| && 0 <= j < |r| && i != j ==> r[i] != r[j]
  {
    forall i, j | 0 <= i < |r| && 0 <= j < |r| && i != j
      ensures r[i] != r[j]
    {
      if i < j {
        LessIrreflexive(r[i]);
      } else {
        LessIrreflexive(r[j]);
      }
    }
  }

  /** The keys of the rows of `t` that satisfy `keep`, ascending. */
  function SelectKeys<R>(t: map<string, R>, keep: R -> bool): (ks: seq<string>)
    ensures forall k :: k in ks <==> k in t && keep(t[k])
    ensures forall i, j :: 0 <= i < j < |ks| ==> Less(ks[i], ks[j])
  {
    Ascending(set k | k in t && keep(t[k]))
  }

  /** `SELECT * ... WHERE keep`: the rows that satisfy `keep`, in key order. */
  function Select<R>(t: map<string, R>, keep: R -> bool): (rows: seq<R>)
    ensures |rows| == |SelectKeys(t, keep)|
    ensures forall i :: 0 <= i < |rows| ==> rows[i] == t[SelectKeys(t, keep)[i]] && keep(rows[i])
  {
    var ks := SelectKeys(t, keep);
    seq(|ks|, i requires 0 <= i < |ks| => t[ks[i]])
  }

  /** Every row that satisfies `keep` has a place in the selection, at the position of its key. */
  lemma SelectFinds<R>(t: map<string, R>, keep: R -> bool, k: string) returns (i: nat)
    requires k in t && keep(t[k])
    ensures i < |Select(t, keep)| && SelectKeys(t, keep)[i] == k && Select(t, keep)[i] == t[k]
  {
    var ks := SelectKeys(t, keep);
    assert k in ks;
    i :| 0 <= i < |ks| && ks[i] == k;
  }
}
