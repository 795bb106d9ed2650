/** An optional value: JavaScript's `null`/`undefined` results become `None`. */
module Wrappers {
  datatype Option<T> = None | Some(value: T)
}

/** The array and string primitives the board's code leans on
    (`filter`, `join`, `split`, `replaceAll`, `new Set`), as functions on sequences. */
module Seqs {

  /** The elements of `s` that satisfy `p`, in their original order (`Array.prototype.filter`). */
  function Filter<T>(s: seq<T>, p: T -> bool): (r: seq<T>)
    ensures |r| <= |s|
    ensures forall i :: 0 <= i < |r| ==> r[i] in s && p(r[i])
    ensures forall i :: 0 <= i < |s| && p(s[i]) ==> s[i] in r
  {
    if s == [] then [] else (if p(s[0]) then [s[0]] else []) + Filter(s[1..], p)
  }

  /** Filtering distributes over concatenation: the relative order of the survivors is kept. */
  lemma {:induction false} FilterConcat<T>(a: seq<T>, b: seq<T>, p: T -> bool)
    ensures Filter(a + b, p) == Filter(a, p) + Filter(b, p)
  {
    if a != [] {
      assert (a + b)[1..] == a[1..] + b;
      FilterConcat(a[1..], b, p);
    } else {
      assert a + b == b;
    }
  }

  /** Every element kept keeps its multiplicity; every element dropped is gone. */
  lemma {:induction false} FilterMultiset<T>(s: seq<T>, p: T -> bool, x: T)
    ensures multiset(Filter(s, p))[x] == if p(x) then multiset(s)[x] else 0
  {
    if s != [] {
      FilterMultiset(s[1..], p, x);
      assert s == [s[0]] + s[1..];
    }
  }

  /** When every element passes, filtering changes nothing. */
  lemma {:induction false} FilterAll<T>(s: seq<T>, p: T -> bool)
    requires forall i :: 0 <= i < |s| ==> p(s[i])
    ensures Filter(s, p) == s
  {
    if s != [] {
      FilterAll(s[1..], p);
    }
  }

  /** What a filter keeps and what the complementary filter keeps add up to the whole. */
  lemma {:induction false} FilterComplementLength<T>(s: seq<T>, p: T -> bool, q: T -> bool)
    requires forall x :: q(x) == !p(x)
    ensures |Filter(s, p)| + |Filter(s, q)| == |s|
  {
    if s != [] {
      FilterComplementLength(s[1..], p, q);
    }
  }

  /** A filter keeps nothing exactly when no element satisfies `p`. */
  lemma {:induction false} FilterEmpty<T>(s: seq<T>, p: T -> bool)
    ensures Filter(s, p) == [] <==> forall i :: 0 <= i < |s| ==> !p(s[i])
  {
    if s != [] {
      FilterEmpty(s[1..], p);
      assert forall i :: 1 <= i < |s| ==> s[i] == s[1..][i - 1];
    }
  }

  /** The first element a filter keeps is the first element of `s` that satisfies `p`. */
  lemma {:induction false} FilterHead<T>(s: seq<T>, p: T -> bool)
    requires Filter(s, p) != []
    ensures exists k :: 0 <= k < |s| && p(s[k]) && Filter(s, p)[0] == s[k]
                        && forall j :: 0 <= j < k ==> !p(s[j])
  {
    var rest := Filter(s[1..], p);
    if p(s[0]) {
      assert Filter(s, p) == [s[0]] + rest;
      assert Filter(s, p)[0] == s[0];
    } else {
      assert Filter(s, p) == rest;
      FilterHead(s[1..], p);
      var k :| 0 <= k < |s[1..]| && p(s[1..][k]) && rest[0] == s[1..][k]
               && forall j :: 0 <= j < k ==> !p(s[1..][j]);
      assert s[k + 1] == s[1..][k];
      forall j | 0 <= j < k + 1 ensures !p(s[j]) {
        if j > 0 { assert s[j] == s[1..][j - 1]; }
      }
      assert p(s[k + 1]) && Filter(s, p)[0] == s[k + 1];
    }
  }

  /** Every earlier element stands in `less` to every later one. */
  predicate SortedBy<T>(s: seq<T>, less: (T, T) -> bool)
  {
    forall i, j :: 0 <= i < j < |s| ==> less(s[i], s[j])
  }

  /** Filtering keeps a sorted sequence sorted. */
  lemma {:induction false} FilterSortedBy<T>(s: seq<T>, p: T -> bool, less: (T, T) -> bool)
    requires SortedBy(s, less)
    ensures SortedBy(Filter(s, p), less)
  {
    if s != [] {
      assert SortedBy(s[1..], less) by {
        forall i, j | 0 <= i < j < |s[1..]| ensures less(s[1..][i], s[1..][j]) {
          assert s[1..][i] == s[i + 1] && s[1..][j] == s[j + 1];
        }
      }
      FilterSortedBy(s[1..], p, less);
      var rest := Filter(s[1..], p);
      if p(s[0]) {
        var r := Filter(s, p);
        assert r == [s[0]] + rest;
        forall j | 0 <= j < |rest| ensures less(s[0], rest[j]) {
          var k :| 0 <= k < |s[1..]| && s[1..][k] == rest[j];
          assert s[k + 1] == rest[j];
        }
        forall i, j | 0 <= i < j < |r| ensures less(r[i], r[j]) {
          assert r[j] == rest[j - 1];
          if i > 0 { assert r[i] == rest[i - 1]; }
        }
      } else {
        assert Filter(s, p) == rest;
      }
    }
  }

  /** `parts.join(sep)`. */
  function Join(parts: seq<string>, sep: string): string
  {
    if |parts| == 0 then "" else if |parts| == 1 then parts[0] else parts[0] + sep + Join(parts[1..], sep)
  }

  /** A join starts with its first part, so it is empty only when that part is. */
  lemma {:induction false} JoinStartsWithFirst(parts: seq<string>, sep: string)
    requires parts != []
    ensures parts[0] <= Join(parts, sep)
  {
    if |parts| > 1 {
      assert Join(parts, sep) == parts[0] + (sep + Join(parts[1..], sep));
    }
  }

  /** Joining one more part puts a separator and that part at the end. */
  lemma {:induction false} JoinSnoc(parts: seq<string>, x: string, sep: string)
    ensures Join(parts + [x], sep) == if parts == [] then x else Join(parts, sep) + sep + x
  {
    if |parts| == 1 {
      assert parts + [x] == [parts[0], x];
      assert (parts + [x])[1..] == [x];
    } else if |parts| > 1 {
      assert (parts + [x])[1..] == parts[1..] + [x];
      JoinSnoc(parts[1..], x, sep);
    } else {
      assert parts + [x] == [x];
    }
  }

  /** `s.split(c)` for a one-character separator: the pieces between separators, at least one. */
  function Split(s: string, c: char): (r: seq<string>)
    ensures |r| > 0
  {
    if s == [] then [""]
    else
      var rest := Split(s[1..], c);
      if s[0] == c then [""] + rest else [[s[0]] + rest[0]] + rest[1..]
  }

  /** A piece free of the separator glues onto the first piece of what follows. */
  lemma {:induction false} SplitPrefix(p: string, t: string, c: char)
    requires c !in p
    ensures Split(p + t, c) == [p + Split(t, c)[0]] + Split(t, c)[1..]
  {
    if p != [] {
      assert (p + t)[1..] == p[1..] + t;
      SplitPrefix(p[1..], t, c);
      assert [p[0]] + (p[1..] + Split(t, c)[0]) == p + Split(t, c)[0];
    } else {
      assert p + t == t && p + Split(t, c)[0] == Split(t, c)[0];
    }
  }

  /** Splitting undoes joining when no part contains the separator. */
  lemma {:induction false} SplitJoin(parts: seq<string>, c: char)
    requires |parts| > 0
    requires forall i :: 0 <= i < |parts| ==> c !in parts[i]
    ensures Split(Join(parts, [c]), c) == parts
  {
    if |parts| == 1 {
      SplitPrefix(parts[0], "", c);
      assert parts[0] + "" == parts[0];
    } else {
      var tail := Join(parts[1..], [c]);
      SplitJoin(parts[1..], c);
      assert parts[0] + [c] + tail == parts[0] + ([c] + tail);
      SplitPrefix(parts[0], [c] + tail, c);
      assert ([c] + tail)[1..] == tail;
      assert parts[0] + "" == parts[0];
      assert parts == [parts[0]] + parts[1..];
    }
  }

  /** `s.replaceAll(c, by)` for a one-character pattern. */
  function ReplaceChar(s: string, c: char, with: string): string
  {
    if s == [] then [] else (if s[0] == c then with else [s[0]]) + ReplaceChar(s[1..], c, with)
  }

  lemma {:induction false} ReplaceCharConcat(a: string, b: string, c: char, with: string)
    ensures ReplaceChar(a + b, c, with) == ReplaceChar(a, c, with) + ReplaceChar(b, c, with)
  {
    if a != [] {
      assert (a + b)[1..] == a[1..] + b;
      ReplaceCharConcat(a[1..], b, c, with);
    } else {
      assert a + b == b;
    }
  }

  lemma {:induction false} ReplaceCharAbsent(s: string, c: char, with: string)
    requires c !in s
    ensures ReplaceChar(s, c, with) == s
  {
    if s != [] {
      ReplaceCharAbsent(s[1..], c, with);
      assert s == [s[0]] + s[1..];
    }
  }

  /** Joining with `c` and then replacing every `c` by `sep` is joining with `sep`,
      provided no part contains `c` itself. */
  lemma {:induction false} ReplaceJoin(parts: seq<string>, c: char, sep: string)
    requires forall i :: 0 <= i < |parts| ==> c !in parts[i]
    ensures ReplaceChar(Join(parts, [c]), c, sep) == Join(parts, sep)
  {
    if |parts| == 1 {
      ReplaceCharAbsent(parts[0], c, sep);
    } else if |parts| > 1 {
      ReplaceJoin(parts[1..], c, sep);
      ReplaceCharConcat(parts[0] + [c], Join(parts[1..], [c]), c, sep);
      ReplaceCharConcat(parts[0], [c], c, sep);
      ReplaceCharAbsent(parts[0], c, sep);
      assert ReplaceChar([c], c, sep) == sep + ReplaceChar([], c, sep);
    }
  }

  /** `names.toString().replaceAll(",", ", ")`: the names joined by commas, as an array's
      `toString` does, then every comma, also one inside a name, widened to ", ". */
  function CommaList(names: seq<string>): string
  {
    ReplaceChar(Join(names, ","), ',', ", ")
  }

  /** For names without commas the list is the names joined by ", ". */
  lemma CommaListJoins(names: seq<string>)
    requires forall i :: 0 <= i < |names| ==> ',' !in names[i]
    ensures CommaList(names) == Join(names, ", ")
  {
    ReplaceJoin(names, ',', ", ");
  }

  /** Widening the one comma between two comma-free pieces. */
  lemma ReplaceOneComma(first: string, rest: string)
    requires ',' !in first && ',' !in rest
    ensures ReplaceChar(first + ([','] + rest), ',', ", ") == first + ", " + rest
  {
    ReplaceCharConcat(first, [','] + rest, ',', ", ");
    ReplaceCharConcat([','], rest, ',', ", ");
    ReplaceCharAbsent(first, ',', ", ");
    ReplaceCharAbsent(rest, ',', ", ");
    assert ReplaceChar([','], ',', ", ") == ", " + ReplaceChar([], ',', ", ");
  }

  /** A name holding ", " comes out with a doubled space, so the list is not always the names
      joined by ", ". */
  lemma CommaListWidensInnerCommas(first: string, last: string)
    requires ',' !in first && ',' !in last
    ensures CommaList([first + ", " + last]) == first + ",  " + last
    ensures CommaList([first + ", " + last]) != Join([first + ", " + last], ", ")
  {
    var rest := " " + last;
    var name := first + ([','] + rest);
    assert first + ", " + last == name;
    assert ',' !in rest;
    ReplaceOneComma(first, rest);
    assert first + ", " + rest == first + ",  " + last;
    assert |first + ",  " + last| == |name| + 1;
  }

  /** No element occurs twice. */
  predicate Distinct<T(==)>(s: seq<T>)
  {
    forall i, j :: 0 <= i < j < |s| ==> s[i] != s[j]
  }

  /** The index of the first occurrence of `x` in `s`. */
  function FirstIndex<T(==)>(s: seq<T>, x: T): (k: nat)
    requires x in s
    ensures k < |s| && s[k] == x && x !in s[..k]
  {
    if s[0] == x then 0 else 1 + FirstIndex(s[1..], x)
  }

  /** `[...new Set(s)]`: the distinct elements of `s` in order of first occurrence
      (a JavaScript `Set` iterates in insertion order and ignores repeated insertions). */
  function Dedup<T(==)>(s: seq<T>): (r: seq<T>)
    ensures Distinct(r)
    ensures forall i :: 0 <= i < |r| ==> r[i] in s
    ensures forall i :: 0 <= i < |s| ==> s[i] in r
  {
    if s == [] then []
    else
      var d := Dedup(s[..|s| - 1]);
      assert forall i :: 0 <= i < |s| - 1 ==> s[i] == s[..|s| - 1][i];
      if s[|s| - 1] in d then d else d + [s[|s| - 1]]
  }

  /** Deduplication consumes one element at a time: a repeat adds nothing, a new value
      goes to the end. */
  lemma DedupSnoc<T>(s: seq<T>, x: T, before: seq<T>)
    requires Dedup(s) == before
    ensures x in before ==> Dedup(s + [x]) == before
    ensures x !in before ==> Dedup(s + [x]) == before + [x]
  {
    assert (s + [x])[..|s|] == s;
  }

  lemma {:induction false} FirstIndexPrefix<T>(s: seq<T>, n: nat, x: T)
    requires n <= |s| && x in s[..n]
    ensures FirstIndex(s, x) == FirstIndex(s[..n], x)
  {
    assert s[..n][0] == s[0];
    if s[0] != x {
      var t := s[..n];
      assert s[1..][..n - 1] == t[1..];
      assert x in t[1..] by {
        var k :| 0 <= k < |t| && t[k] == x;
        assert t[1..][k - 1] == x;
      }
      FirstIndexPrefix(s[1..], n - 1, x);
    }
  }

  /** Dedup lists the distinct elements in the order in which they first occur in `s`. */
  lemma {:induction false} DedupOrder<T>(s: seq<T>)
    ensures forall i, j :: 0 <= i < j < |Dedup(s)| ==> FirstIndex(s, Dedup(s)[i]) < FirstIndex(s, Dedup(s)[j])
  {
    if s != [] {
      var n := |s| - 1;
      var pre := s[..n];
      var d := Dedup(pre);
      var r := Dedup(s);
      DedupOrder(pre);
      forall x | x in pre ensures FirstIndex(s, x) == FirstIndex(pre, x) < n {
        FirstIndexPrefix(s, n, x);
      }
      forall i | 0 <= i < |d| ensures d[i] in pre && FirstIndex(s, d[i]) == FirstIndex(pre, d[i]) < n { }
      if s[n] in d {
        assert r == d;
      } else {
        assert r == d + [s[n]];
        assert FirstIndex(s, s[n]) == n by {
          assert s[n] !in pre;
        }
        forall i, j | 0 <= i < j < |r| ensures FirstIndex(s, r[i]) < FirstIndex(s, r[j]) {
          assert r[i] == d[i];
          if j < |d| {
            assert r[j] == d[j];
          } else {
            assert r[j] == s[n];
          }
        }
      }
    }
  }
}
