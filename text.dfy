/** The Python string operations the scripts rely on: `strip`, `in`, `split`,
    `join` and the code-point order `<=` on strings. */
module Text {
  import opened Common

  /** The ASCII characters that Python's `str.isspace` accepts, and so the ones
      `str.strip()` removes: tab, line feed, vertical tab, form feed, carriage
      return, the separators 0x1C to 0x1F, and space. */
  predicate IsSpace(c: char) {
    (9 <= c as int <= 13) || (28 <= c as int <= 32)
  }

  /** `s` neither starts nor ends with whitespace. */
  predicate NoOuterSpace(s: string) {
    s == [] || (!IsSpace(s[0]) && !IsSpace(s[|s| - 1]))
  }

  /** `s` with its leading whitespace removed: a suffix of `s`. */
  function TrimStart(s: string): (r: string)
    ensures |r| <= |s| && r == s[|s| - |r|..]
    ensures forall i | 0 <= i < |s| - |r| :: IsSpace(s[i])
    ensures r == [] || !IsSpace(r[0])
  {
    if s != [] && IsSpace(s[0]) then TrimStart(s[1..]) else s
  }

  /** `s` with its trailing whitespace removed: a prefix of `s`. */
  function TrimEnd(s: string): (r: string)
    ensures |r| <= |s| && r == s[..|r|]
    ensures forall i | |r| <= i < |s| :: IsSpace(s[i])
    ensures r == [] || !IsSpace(r[|r| - 1])
  {
    if s != [] && IsSpace(s[|s| - 1]) then TrimEnd(s[..|s| - 1]) else s
  }

  /** `r` stands in `s` at index `k` with only whitespace before and after it. */
  predicate SpaceAround(s: string, r: string, k: nat) {
    && k + |r| <= |s| && r == s[k..k + |r|]
    && (forall i | 0 <= i < k :: IsSpace(s[i]))
    && (forall i | k + |r| <= i < |s| :: IsSpace(s[i]))
  }

  /** Python's `s.strip()`: `s` with its leading and trailing whitespace
      removed, that is the infix of `s` with only whitespace around it and none
      at its ends (`StripWindow`). It is empty exactly when `s` is all
      whitespace, and is `s` itself when `s` has none to remove. */
  function Strip(s: string): (r: string)
    ensures NoOuterSpace(r)
    ensures r == [] <==> forall i | 0 <= i < |s| :: IsSpace(s[i])
    ensures NoOuterSpace(s) ==> r == s
  {
    TrimBoth(s);
    TrimEnd(TrimStart(s))
  }

  /** `Strip(s)` is `s` with its leading and trailing whitespace removed: it
      stands in `s` with only whitespace before and after it. Kept apart from
      `Strip`'s own contract so that only proofs that need the window see it. */
  lemma StripWindow(s: string)
    ensures exists k :: SpaceAround(s, Strip(s), k)
  {
    TrimBoth(s);
    var k := |s| - |TrimStart(s)|;
    assert Strip(s) == TrimEnd(TrimStart(s));
    assert SpaceAround(s, Strip(s), k);
  }

  /** Trimming both ends leaves the window of `s` that starts where the
      leading whitespace ends. */
  lemma TrimBoth(s: string)
    ensures SpaceAround(s, TrimEnd(TrimStart(s)), |s| - |TrimStart(s)|)
    ensures NoOuterSpace(TrimEnd(TrimStart(s)))
  {
    var t := TrimStart(s);
    var r := TrimEnd(t);
    SuffixPrefixWindow(s, t, r);
    PrefixEnds(t, r);
  }

  /** A prefix of `t` that does not end in whitespace, where `t` does not start
      with whitespace, has no outer whitespace. */
  lemma PrefixEnds(t: string, r: string)
    requires t == [] || !IsSpace(t[0])
    requires |r| <= |t| && r == t[..|r|]
    requires r == [] || !IsSpace(r[|r| - 1])
    ensures NoOuterSpace(r)
  {
    assert r != [] ==> r[0] == t[0];
  }

  /** A whitespace-bounded prefix `r` of a whitespace-bounded suffix `t` of `s`
      is a window of `s` with only whitespace around it. */
  lemma SuffixPrefixWindow(s: string, t: string, r: string)
    requires |t| <= |s| && t == s[|s| - |t|..]
    requires forall i | 0 <= i < |s| - |t| :: IsSpace(s[i])
    requires |r| <= |t| && r == t[..|r|]
    requires forall i | |r| <= i < |t| :: IsSpace(t[i])
    ensures SpaceAround(s, r, |s| - |t|)
  {
    var k := |s| - |t|;
    forall i | k + |r| <= i < |s|
      ensures IsSpace(s[i])
    {
      assert s[i] == t[i - k];
    }
  }

  /** `m` occurs in `s` starting at index `i`. */
  predicate OccursAt(s: string, m: string, i: nat) {
    i + |m| <= |s| && s[i..i + |m|] == m
  }

  /** The first index at or after `k` where `m` occurs in `s`. */
  function FindFrom(s: string, m: string, k: nat): (r: Option<nat>)
    requires k <= |s|
    ensures r.Some? ==> k <= r.value && OccursAt(s, m, r.value)
    ensures r.Some? ==> forall j | k <= j < r.value :: !OccursAt(s, m, j)
    ensures r.None? ==> forall j | k <= j :: !OccursAt(s, m, j)
    decreases |s| - k
  {
    if OccursAt(s, m, k) then Some(k)
    else if k == |s| then None
    else FindFrom(s, m, k + 1)
  }

  /** The index of the first occurrence of `m` in `s`, as Python's `s.find(m)`
      (with `None` for -1); `m in s` is `FindFirst(s, m).Some?`. */
  function FindFirst(s: string, m: string): (r: Option<nat>)
    ensures r.Some? ==> OccursAt(s, m, r.value) && forall j: nat | j < r.value :: !OccursAt(s, m, j)
    ensures r.None? ==> forall j: nat :: !OccursAt(s, m, j)
  {
    FindFrom(s, m, 0)
  }

  /** `FindFirst` finds the first occurrence. */
  lemma FindFirstAt(s: string, m: string, i: nat)
    requires OccursAt(s, m, i)
    requires forall j: nat | j < i :: !OccursAt(s, m, j)
    ensures FindFirst(s, m) == Some(i)
  {
  }

  /** The text before the first occurrence of `m` holds no occurrence of it. */
  lemma NoOccurrenceBefore(s: string, m: string, i: nat)
    requires m != [] && i <= |s|
    requires forall j: nat | j < i :: !OccursAt(s, m, j)
    ensures forall j: nat :: !OccursAt(s[..i], m, j)
    ensures s == s[..i] + s[i..]
  {
    forall j: nat ensures !OccursAt(s[..i], m, j) {
      if j + |m| <= i {
        assert !OccursAt(s, m, j);
        assert s[..i][j..j + |m|] == s[j..j + |m|];
      }
    }
  }

  /** A one-character pattern occurs exactly where that character stands. */
  lemma OccursAtChar(s: string, c: char, j: nat)
    ensures OccursAt(s, [c], j) <==> j < |s| && s[j] == c
  {
    if j < |s| && s[j] == c {
      assert s[j..j + 1] == [c];
    }
  }

  /** Python's `sep.join(ts)` for a one-character separator. */
  function Join(ts: seq<string>, sep: char): (r: string)
    ensures (forall i | 0 <= i < |ts| :: sep !in ts[i]) ==> (sep in r <==> |ts| > 1)
  {
    if |ts| == 0 then ""
    else if |ts| == 1 then ts[0]
    else ts[0] + [sep] + Join(ts[1..], sep)
  }

  /** Python's `s.split(sep)` for a one-character separator: at least one piece,
      no piece contains the separator, and joining the pieces gives `s` back. */
  function Split(s: string, sep: char): (r: seq<string>)
    ensures |r| >= 1
    ensures forall p | p in r :: sep !in p
    ensures Join(r, sep) == s
    decreases |s|
  {
    match FindFirst(s, [sep])
    case None =>
      assert sep !in s by {
        forall j | 0 <= j < |s| ensures s[j] != sep {
          OccursAtChar(s, sep, j);
        }
      }
      [s]
    case Some(i) =>
      OccursAtChar(s, sep, i);
      assert sep !in s[..i] by {
        forall j | 0 <= j < i ensures s[..i][j] != sep {
          OccursAtChar(s, sep, j);
        }
      }
      var rest := Split(s[i + 1..], sep);
      assert ([s[..i]] + rest)[1..] == rest;
      assert s == s[..i] + [sep] + s[i + 1..];
      [s[..i]] + rest
  }

  /** A separator that does not occur is not found. */
  lemma NotFoundChar(s: string, sep: char)
    requires sep !in s
    ensures FindFirst(s, [sep]).None?
  {
    forall j: nat ensures !OccursAt(s, [sep], j) {
      OccursAtChar(s, sep, j);
    }
  }

  /** The first separator of `a + [sep] + b` is the one after `a` when `a`
      has none. */
  lemma FoundCharAfter(a: string, b: string, sep: char)
    requires sep !in a
    ensures FindFirst(a + [sep] + b, [sep]) == Some(|a|)
  {
    var s := a + [sep] + b;
    OccursAtChar(s, sep, |a|);
    forall j: nat | j < |a| ensures !OccursAt(s, [sep], j) {
      OccursAtChar(s, sep, j);
      assert s[j] == a[j];
    }
    FindFirstAt(s, [sep], |a|);
  }

  /** Splitting a text without the separator gives the text alone. */
  lemma SplitNone(a: string, sep: char)
    requires sep !in a
    ensures Split(a, sep) == [a]
  {
    NotFoundChar(a, sep);
  }

  /** Splitting cuts at the first separator and splits the rest. */
  lemma SplitAfter(a: string, b: string, sep: char)
    requires sep !in a
    ensures Split(a + [sep] + b, sep) == [a] + Split(b, sep)
  {
    var s := a + [sep] + b;
    FoundCharAfter(a, b, sep);
    assert s[..|a|] == a;
    assert s[|a| + 1..] == b;
  }

  /** Splitting undoes joining: for a non-empty list of pieces none of which
      contains the separator, `Join(ps, sep).split(sep) == ps`. */
  lemma {:induction false} SplitJoin(ps: seq<string>, sep: char)
    requires |ps| >= 1
    requires forall p | p in ps :: sep !in p
    ensures Split(Join(ps, sep), sep) == ps
  {
    assert ps[0] in ps;
    if |ps| == 1 {
      SplitNone(ps[0], sep);
    } else {
      var rest := Join(ps[1..], sep);
      assert Join(ps, sep) == ps[0] + [sep] + rest;
      SplitAfter(ps[0], rest, sep);
      forall p | p in ps[1..] ensures sep !in p {
        assert p in ps;
      }
      SplitJoin(ps[1..], sep);
      assert ps == [ps[0]] + ps[1..];
    }
  }

  /** Python's `a <= b` on strings: lexicographic order by code point. */
  predicate StrLe(a: string, b: string)
    ensures a <= b ==> StrLe(a, b)
  {
    if a == [] then true
    else if b == [] then false
    else if a[0] != b[0] then a[0] < b[0]
    else StrLe(a[1..], b[1..])
  }

  /** Two strings each at most the other are equal. */
  lemma {:induction false} StrLeAntisymmetric(a: string, b: string)
    requires StrLe(a, b) && StrLe(b, a)
    ensures a == b
  {
    if a != [] && b != [] {
      StrLeAntisymmetric(a[1..], b[1..]);
      assert a == [a[0]] + a[1..] && b == [b[0]] + b[1..];
    }
  }

  lemma {:induction false} StrLeReflexive(a: string)
    ensures StrLe(a, a)
  {
    if a != [] {
      StrLeReflexive(a[1..]);
    }
  }

  lemma {:induction false} StrLeTotal(a: string, b: string)
    ensures StrLe(a, b) || StrLe(b, a)
  {
    if a != [] && b != [] && a[0] == b[0] {
      StrLeTotal(a[1..], b[1..]);
    }
  }

  lemma {:induction false} StrLeTransitive(a: string, b: string, c: string)
    requires StrLe(a, b) && StrLe(b, c)
    ensures StrLe(a, c)
  {
    if a != [] && b != [] && c != [] && a[0] == b[0] && b[0] == c[0] {
      StrLeTransitive(a[1..], b[1..], c[1..]);
    }
  }
}
