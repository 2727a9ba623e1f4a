/** Generic helpers shared by the rest of the model. */
module Common {

  /** An optional value: a SQL NULL, a missing JSON member, a query with no row. */
  datatype Option<+T> = None | Some(value: T) {
    /** The value, or `default` when there is none (Python's `x or default`, `d.get(k, default)`). */
    function GetOr(default: T): T {
      match this
      case Some(v) => v
      case None => default
    }
  }

  /** The elements of `s` that satisfy `keep`, in their original order:
      Python's `[x for x in s if keep(x)]`. */
  function Filter<T>(s: seq<T>, keep: T -> bool): (r: seq<T>)
    ensures |r| <= |s|
    ensures forall x | x in r :: x in s && keep(x)
    ensures forall x | x in s && keep(x) :: x in r
  {
    if s == [] then [] else (if keep(s[0]) then [s[0]] else []) + Filter(s[1..], keep)
  }

  /** Filtering distributes over concatenation. */
  lemma {:induction false} FilterConcat<T>(a: seq<T>, b: seq<T>, keep: T -> bool)
    ensures Filter(a + b, keep) == Filter(a, keep) + Filter(b, keep)
  {
    if a == [] {
      assert a + b == b;
    } else {
      assert (a + b)[1..] == a[1..] + b;
      FilterConcat(a[1..], b, keep);
    }
  }

  /** Filtering a sequence whose every element is kept changes nothing. */
  lemma {:induction false} FilterKeepsAll<T>(s: seq<T>, keep: T -> bool)
    requires forall x | x in s :: keep(x)
    ensures Filter(s, keep) == s
  {
    if s != [] {
      FilterKeepsAll(s[1..], keep);
    }
  }

  /** The first element of a non-empty filter result is the first element of `s`
      that is kept. */
  lemma {:induction false} FilterHead<T>(s: seq<T>, keep: T -> bool)
    requires Filter(s, keep) != []
    ensures exists i :: 0 <= i < |s| && s[i] == Filter(s, keep)[0] && keep(s[i]) &&
                        forall j | 0 <= j < i :: !keep(s[j])
  {
    if !keep(s[0]) {
      FilterHead(s[1..], keep);
      var i :| 0 <= i < |s[1..]| && s[1..][i] == Filter(s[1..], keep)[0] && keep(s[1..][i]) &&
               forall j | 0 <= j < i :: !keep(s[1..][j]);
      assert s[i + 1] == Filter(s, keep)[0];
      assert forall j | 0 <= j < i + 1 :: !keep(s[j]) by {
        forall j | 0 <= j < i + 1 ensures !keep(s[j]) {
          if j > 0 { assert s[j] == s[1..][j - 1]; }
        }
      }
    } else {
      assert s[0] == Filter(s, keep)[0];
    }
  }

  /** Updating another key commutes with removing `c`. */
  lemma UpdateMinusOther<K, V>(m: map<K, V>, c: K, k: K, v: V)
    requires k != c
    ensures (m - {c})[k := v] == m[k := v] - {c}
  {
  }

  /** Removing a key forgets any update of it. */
  lemma UpdateMinusSame<K, V>(m: map<K, V>, c: K, v: V)
    ensures m[c := v] - {c} == m - {c}
  {
  }
}
