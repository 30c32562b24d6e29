/** Strings under the order JavaScript's default `Array.prototype.sort`
    uses: a proper prefix sorts first, otherwise the first character at
    which two strings differ decides. Also the ascending sequence of a
    finite set of strings, and the insertion step that builds it. */
module StringOrder {
  import opened Sequences

  /** `a` sorts strictly before `b`. A proper prefix sorts first. */
  predicate Less(a: string, b: string)
    ensures |a| < |b| && a == b[..|a|] ==> Less(a, b)
    decreases |a|
  {
    if a == [] then b != []
    else if b == [] then false
    else
      assert |a| < |b| && a == b[..|a|] ==> a[0] == b[0] && a[1..] == b[1..][..|a| - 1];
      a[0] < b[0] || (a[0] == b[0] && Less(a[1..], b[1..]))
  }

  /** The first position at which `a` and `b` differ is `i`, and there `a`
      has the smaller character. */
  predicate FirstDifferenceBelow(a: string, b: string, i: int)
  {
    0 <= i < |a| && i < |b| && a[..i] == b[..i] && a[i] < b[i]
  }

  /** `Less` is the string case of `IsLessThan` in ECMA-262, which the
      default sort comparator uses: `a` sorts first exactly when it is a
      proper prefix of `b`, or when at the first position where they differ
      `a` holds the smaller character. */
  lemma {:induction false} LessFirstDifference(a: string, b: string)
    ensures Less(a, b) <==> (|a| < |b| && a == b[..|a|]) || exists i :: FirstDifferenceBelow(a, b, i)
    decreases |a|
  {
    if a == [] {
      assert forall i :: !FirstDifferenceBelow(a, b, i);
    } else if b == [] {
      assert forall i :: !FirstDifferenceBelow(a, b, i);
    } else {
      LessFirstDifference(a[1..], b[1..]);
      if a[0] < b[0] {
        assert FirstDifferenceBelow(a, b, 0);
      } else if a[0] > b[0] {
        forall i | 0 < i < |a| && i < |b| ensures a[..i] != b[..i] {
          assert a[..i][0] != b[..i][0];
        }
        assert forall i :: !FirstDifferenceBelow(a, b, i);
      } else {
        forall i | 0 < i < |a| && i < |b|
          ensures FirstDifferenceBelow(a, b, i) <==> FirstDifferenceBelow(a[1..], b[1..], i - 1)
        {
          assert a[..i] == [a[0]] + a[1..][..i - 1];
          assert b[..i] == [b[0]] + b[1..][..i - 1];
        }
        if (exists i :: FirstDifferenceBelow(a[1..], b[1..], i)) {
          var i :| FirstDifferenceBelow(a[1..], b[1..], i);
          assert FirstDifferenceBelow(a, b, i + 1);
        }
        if (exists i :: FirstDifferenceBelow(a, b, i)) {
          var i :| FirstDifferenceBelow(a, b, i);
          assert FirstDifferenceBelow(a[1..], b[1..], i - 1);
        }
        if |a| < |b| {
          assert b[..|a|] == [b[0]] + b[1..][..|a| - 1];
          assert a == [a[0]] + a[1..];
        }
      }
    }
  }

  lemma {:induction false} LessIrreflexive(a: string)
    ensures !Less(a, a)
    decreases |a|
  {
    if a != [] {
      LessIrreflexive(a[1..]);
    }
  }

  lemma {:induction false} LessAsymmetric(a: string, b: string)
    requires Less(a, b)
    ensures !Less(b, a)
    decreases |a|
  {
    if a != [] && a[0] == b[0] {
      LessAsymmetric(a[1..], b[1..]);
    }
  }

  lemma {:induction false} LessTransitive(a: string, b: string, c: string)
    requires Less(a, b) && Less(b, c)
    ensures Less(a, c)
    decreases |a|
  {
    if a != [] && a[0] == b[0] && b[0] == c[0] {
      LessTransitive(a[1..], b[1..], c[1..]);
    }
  }

  lemma {:induction false} LessTotal(a: string, b: string)
    ensures a == b || Less(a, b) || Less(b, a)
    decreases |a|
  {
    if a != [] && b != [] && a[0] == b[0] {
      LessTotal(a[1..], b[1..]);
      assert a == [a[0]] + a[1..] && b == [b[0]] + b[1..];
    }
  }

  /** Ascending with no repetition: what the sorted keys of a `Set` are. */
  predicate StrictlySorted(s: seq<string>)
  {
    forall i, j :: 0 <= i < j < |s| ==> Less(s[i], s[j])
  }

  /** A strictly sorted sequence holds no string twice. */
  lemma StrictlySortedDistinct(s: seq<string>, i: int, j: int)
    requires StrictlySorted(s) && 0 <= i < |s| && 0 <= j < |s| && s[i] == s[j]
    ensures i == j
  {
    if i < j {
      LessIrreflexive(s[i]);
    } else if j < i {
      LessIrreflexive(s[j]);
    }
  }

  /** `x` precedes every other string of the sequence `s`. */
  lemma BelowAll(x: string, s: seq<string>)
    requires StrictlySorted(s) && s != [] && Less(x, s[0])
    ensures forall j :: 0 <= j < |s| ==> Less(x, s[j])
  {
    forall j | 0 < j < |s| ensures Less(x, s[j]) {
      LessTransitive(x, s[0], s[j]);
    }
  }

  /** A sorted sequence with a smaller string put in front stays sorted. */
  lemma SortedCons(x: string, s: seq<string>)
    requires StrictlySorted(s)
    requires forall y :: y in s ==> Less(x, y)
    ensures StrictlySorted([x] + s)
  {
    var r := [x] + s;
    forall i, j | 0 <= i < j < |r| ensures Less(r[i], r[j]) {
      if i == 0 {
        assert r[j] == s[j - 1];
      } else {
        assert r[i] == s[i - 1] && r[j] == s[j - 1];
      }
    }
  }

  /** Inserting a new string into a strictly sorted sequence at its place. */
  function Insert(s: seq<string>, k: string): (r: seq<string>)
    requires StrictlySorted(s) && k !in s
    ensures StrictlySorted(r) && |r| == |s| + 1
    ensures forall x :: x in r <==> x == k || x in s
    decreases |s|, 1
  {
    if s == [] then [k]
    else if Less(k, s[0]) then
      BelowAll(k, s);
      SortedCons(k, s);
      [k] + s
    else
      LessTotal(k, s[0]);
      InsertTail(s, k);
      [s[0]] + Insert(s[1..], k)
  }

  /** The proof step of `Insert` past the head of `s`. */
  lemma InsertTail(s: seq<string>, k: string)
    requires StrictlySorted(s) && s != [] && k !in s && Less(s[0], k)
    ensures StrictlySorted(s[1..]) && k !in s[1..]
    ensures StrictlySorted([s[0]] + Insert(s[1..], k))
    decreases |s|, 0
  {
    assert StrictlySorted(s[1..]);
    var t := Insert(s[1..], k);
    forall y | y in t ensures Less(s[0], y) {
      if y != k {
        var j :| 0 <= j < |s[1..]| && s[1..][j] == y;
        assert s[j + 1] == y;
      }
    }
    SortedCons(s[0], t);
  }

  /** `m` is the least string of `s`. */
  ghost predicate IsLeast(m: string, s: set<string>)
  {
    m in s && forall y :: y in s && y != m ==> Less(m, y)
  }

  lemma {:induction false} LeastExists(s: set<string>)
    requires s != {}
    ensures exists m :: IsLeast(m, s)
    decreases |s|
  {
    var x :| x in s;
    if s != {x} {
      LeastExists(s - {x});
      var m :| IsLeast(m, s - {x});
      LessTotal(x, m);
      if Less(x, m) {
        forall y | y in s && y != x ensures Less(x, y) {
          if y != m {
            LessTransitive(x, m, y);
          }
        }
        assert IsLeast(x, s);
      } else {
        assert IsLeast(m, s);
      }
    } else {
      assert IsLeast(x, s);
    }
  }

  /** The least string of a non-empty set. */
  ghost function Least(s: set<string>): (m: string)
    requires s != {}
    ensures IsLeast(m, s)
  {
    LeastExists(s);
    var m :| IsLeast(m, s);
    m
  }

  /** The strings of `s` in ascending order: what sorting the distinct
      keys of a set yields. */
  ghost function SortedSeq(s: set<string>): (r: seq<string>)
    ensures StrictlySorted(r) && |r| == |s|
    ensures forall x :: x in r <==> x in s
    decreases |s|
  {
    if s == {} then []
    else
      var m := Least(s);
      var rest := SortedSeq(s - {m});
      SortedCons(m, rest);
      [m] + rest
  }

  /** A strictly sorted sequence is determined by the strings it holds. */
  lemma {:induction false} SortedUnique(a: seq<string>, b: seq<string>)
    requires StrictlySorted(a) && StrictlySorted(b)
    requires forall x :: x in a <==> x in b
    ensures a == b
    decreases |a|
  {
    assert a != [] ==> a[0] in b;
    assert b != [] ==> b[0] in a;
    if a != [] && b != [] {
      assert a[0] != b[0] ==> Less(a[0], b[0]) && Less(b[0], a[0]);
      if Less(a[0], b[0]) {
        LessAsymmetric(a[0], b[0]);
      }
      assert a[0] == b[0];
      forall x ensures x in a[1..] <==> x in b[1..] {
        if x in a[1..] {
          var i :| 0 <= i < |a[1..]| && a[1..][i] == x;
          assert a[i + 1] == x;
          LessIrreflexive(a[0]);
          assert x != b[0];
          assert x in b;
        }
        if x in b[1..] {
          var i :| 0 <= i < |b[1..]| && b[1..][i] == x;
          assert b[i + 1] == x;
          LessIrreflexive(b[0]);
          assert x != a[0];
          assert x in a;
        }
      }
      SortedUnique(a[1..], b[1..]);
      assert a == [a[0]] + a[1..] && b == [b[0]] + b[1..];
    }
  }

  /** Deleting elements from a strictly sorted sequence keeps it sorted:
      a filtered array of sorted names is still sorted. */
  lemma {:induction false} SubsequenceOfSorted(a: seq<string>, b: seq<string>)
    requires IsSubsequence(a, b) && StrictlySorted(b)
    ensures StrictlySorted(a)
    decreases |b|
  {
    if a != [] {
      assert StrictlySorted(b[1..]);
      if a[0] == b[0] && IsSubsequence(a[1..], b[1..]) {
        SubsequenceOfSorted(a[1..], b[1..]);
        SubsequenceMembers(a[1..], b[1..]);
        forall y | y in a[1..] ensures Less(a[0], y) {
          var j :| 0 <= j < |b[1..]| && b[1..][j] == y;
          assert b[j + 1] == y;
        }
        SortedCons(a[0], a[1..]);
        assert a == [a[0]] + a[1..];
      } else {
        SubsequenceOfSorted(a, b[1..]);
      }
    }
  }
}
