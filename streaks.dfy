/** Streak analysis: `get_win_loss_streaks` in mlb_stats.py.

    The Python code groups the ordered result characters into maximal runs of
    equal values (`itertools.groupby`), keeps the lengths of the runs whose key
    is the target character, sorts them in descending order and returns the
    first length together with the number of times it occurs in the list.
    When the target never occurs the list is empty and `streaks[0]` raises
    IndexError; the model returns `Err(IndexError)` in that case. */
module Streaks {
  import opened Outcomes

  /** One group produced by `itertools.groupby`: its key and its members. */
  datatype Run = Run(key: char, members: seq<char>)

  /** The longest streak length, and how many streaks reach that length. */
  datatype Streak = Streak(longest: nat, count: nat)

  // ---------------------------------------------------------------------
  // Grouping into maximal runs
  // ---------------------------------------------------------------------

  /** A run is non-empty and every member equals its key. */
  predicate IsRun(r: Run)
  {
    |r.members| > 0 && forall i :: 0 <= i < |r.members| ==> r.members[i] == r.key
  }

  /** The members of the runs, concatenated in order. */
  function Flatten(rs: seq<Run>): seq<char>
  {
    if rs == [] then [] else rs[0].members + Flatten(rs[1..])
  }

  /** `rs` splits `s` into maximal runs: concatenated they give `s` back,
      every run is non-empty and constant, and neighbouring runs have
      different keys. */
  predicate IsRunPartition(rs: seq<Run>, s: seq<char>)
  {
    && Flatten(rs) == s
    && (forall k :: 0 <= k < |rs| ==> IsRun(rs[k]))
    && (forall k :: 0 < k < |rs| ==> rs[k - 1].key != rs[k].key)
  }

  /** The length of the maximal run of equal values at the front of `s`. */
  function LeadingRun(s: seq<char>): (n: nat)
    requires s != []
    ensures 1 <= n <= |s|
    ensures forall i :: 0 <= i < n ==> s[i] == s[0]
    ensures n < |s| ==> s[n] != s[0]
  {
    if |s| == 1 || s[1] != s[0] then 1 else 1 + LeadingRun(s[1..])
  }

  /** `itertools.groupby(results)`: the maximal runs of `s`, in order. */
  function GroupBy(s: seq<char>): (rs: seq<Run>)
    ensures IsRunPartition(rs, s)
    ensures s != [] ==> rs != [] && rs[0].key == s[0]
    decreases |s|
  {
    if s == [] then []
    else
      var n := LeadingRun(s);
      assert s[..n] + s[n..] == s;
      [Run(s[0], s[..n])] + GroupBy(s[n..])
  }

  /** Dropping the first run of a partition leaves a partition of the rest. */
  lemma TailIsRunPartition(rs: seq<Run>, s: seq<char>)
    requires IsRunPartition(rs, s) && rs != []
    ensures s == rs[0].members + Flatten(rs[1..])
    ensures IsRunPartition(rs[1..], Flatten(rs[1..]))
    ensures rs[1..] != [] ==> Flatten(rs[1..]) != [] && Flatten(rs[1..])[0] == rs[1].key
  {
    if rs[1..] != [] {
      assert IsRun(rs[1]);
      assert rs[1..][0] == rs[1];
    }
  }

  /** The partition into maximal runs is unique: any split of `s` with the
      properties of `IsRunPartition` is exactly what `GroupBy` yields. */
  lemma {:induction false} RunPartitionUnique(rs: seq<Run>, s: seq<char>)
    requires IsRunPartition(rs, s)
    ensures rs == GroupBy(s)
  {
    if rs != [] {
      TailIsRunPartition(rs, s);
      var r, rest := rs[0], rs[1..];
      var t := Flatten(rest);
      assert IsRun(r);
      var m := |r.members|;
      assert s[0] == r.key;
      var n := LeadingRun(s);
      assert forall i :: 0 <= i < m ==> s[i] == r.members[i] == s[0];
      assert m < |s| ==> rest != [] && s[m] == t[0] == rs[1].key != s[0];
      assert n == m;
      assert s[..n] == r.members;
      assert s[n..] == t;
      RunPartitionUnique(rest, t);
      assert r == Run(s[0], s[..n]);
    }
  }

  // ---------------------------------------------------------------------
  // Lengths of the runs
  // ---------------------------------------------------------------------

  function Sum(xs: seq<nat>): nat
  {
    if xs == [] then 0 else xs[0] + Sum(xs[1..])
  }

  lemma {:induction false} SumConcat(a: seq<nat>, b: seq<nat>)
    ensures Sum(a + b) == Sum(a) + Sum(b)
  {
    if a != [] {
      assert (a + b)[1..] == a[1..] + b;
      SumConcat(a[1..], b);
    } else {
      assert a + b == b;
    }
  }

  /** The lengths of all the runs, in order. */
  function Lengths(rs: seq<Run>): seq<nat>
  {
    if rs == [] then [] else [|rs[0].members|] + Lengths(rs[1..])
  }

  /** The lengths of the runs keyed `target`, in order: one entry per such
      run, and none for runs of any other key. */
  function StreakLengths(rs: seq<Run>, target: char): (ls: seq<nat>)
    ensures |ls| <= |rs|
    ensures ls == [] <==> forall k :: 0 <= k < |rs| ==> rs[k].key != target
  {
    if rs == [] then []
    else (if rs[0].key == target then [|rs[0].members|] else []) + StreakLengths(rs[1..], target)
  }

  lemma {:induction false} LengthsSumToSize(rs: seq<Run>)
    ensures Sum(Lengths(rs)) == |Flatten(rs)|
  {
    if rs != [] {
      LengthsSumToSize(rs[1..]);
    }
  }

  /** The run lengths add up to the number of results: the grouping loses
      and invents nothing. */
  lemma {:induction false} GroupByCovers(s: seq<char>)
    ensures Sum(Lengths(GroupBy(s))) == |s|
  {
    LengthsSumToSize(GroupBy(s));
  }

  lemma {:induction false} ConstantMultiset(m: seq<char>, k: char, c: char)
    requires forall i :: 0 <= i < |m| ==> m[i] == k
    ensures multiset(m)[c] == if k == c then |m| else 0
  {
    if m != [] {
      assert m == [m[0]] + m[1..];
      ConstantMultiset(m[1..], k, c);
    }
  }

  /** The streaks of `c` are the runs keyed `c`: each is at least one game
      long, together they hold every occurrence of `c`, and there are none
      exactly when `c` does not occur. */
  lemma {:induction false} StreakLengthsSum(rs: seq<Run>, s: seq<char>, c: char)
    requires IsRunPartition(rs, s)
    ensures Sum(StreakLengths(rs, c)) == multiset(s)[c]
    ensures forall i :: 0 <= i < |StreakLengths(rs, c)| ==> StreakLengths(rs, c)[i] >= 1
    ensures StreakLengths(rs, c) == [] <==> c !in s
  {
    if rs != [] {
      TailIsRunPartition(rs, s);
      var r, t := rs[0], Flatten(rs[1..]);
      assert IsRun(r);
      StreakLengthsSum(rs[1..], t, c);
      ConstantMultiset(r.members, r.key, c);
      var head := if r.key == c then [|r.members|] else [];
      assert StreakLengths(rs, c) == head + StreakLengths(rs[1..], c);
      SumConcat(head, StreakLengths(rs[1..], c));
      assert multiset(s) == multiset(r.members) + multiset(t);
      assert c in s <==> c in multiset(s);
      assert r.key == c ==> r.members[0] == c;
    }
  }

  // ---------------------------------------------------------------------
  // sorted(..., reverse=True) and list.count
  // ---------------------------------------------------------------------

  predicate Descending(xs: seq<nat>)
  {
    forall i, j :: 0 <= i < j < |xs| ==> xs[i] >= xs[j]
  }

  /** Inserts `x` into a descending list, keeping it descending. */
  function Insert(x: nat, xs: seq<nat>): (ys: seq<nat>)
    requires Descending(xs)
    ensures Descending(ys)
    ensures multiset(ys) == multiset(xs) + multiset{x}
    ensures ys != [] && ys[0] == if xs == [] || x >= xs[0] then x else xs[0]
  {
    if xs == [] || x >= xs[0] then
      DescendingCons(x, xs);
      [x] + xs
    else
      assert xs == [xs[0]] + xs[1..];
      var rest := Insert(x, xs[1..]);
      DescendingCons(xs[0], rest);
      [xs[0]] + rest
  }

  /** A head no smaller than the first item keeps a list descending. */
  lemma DescendingCons(h: nat, xs: seq<nat>)
    requires Descending(xs) && (xs == [] || h >= xs[0])
    ensures Descending([h] + xs)
  {
    var ys := [h] + xs;
    forall i, j | 0 <= i < j < |ys|
      ensures ys[i] >= ys[j]
    {
      if i == 0 {
        assert ys[j] == xs[j - 1] <= xs[0];
      } else {
        assert ys[i] == xs[i - 1] && ys[j] == xs[j - 1];
      }
    }
  }

  /** `sorted(xs, reverse=True)`: a descending permutation of `xs`. */
  function SortDescending(xs: seq<nat>): (ys: seq<nat>)
    ensures Descending(ys)
    ensures multiset(ys) == multiset(xs)
  {
    if xs == [] then []
    else
      assert xs == [xs[0]] + xs[1..];
      Insert(xs[0], SortDescending(xs[1..]))
  }

  /** `xs.count(v)`: how many entries of `xs` equal `v`. */
  function Count(xs: seq<nat>, v: nat): (n: nat)
    ensures n == multiset(xs)[v]
  {
    if xs == [] then 0
    else
      assert xs == [xs[0]] + xs[1..];
      (if xs[0] == v then 1 else 0) + Count(xs[1..], v)
  }

  /** Kept apart so that the nonlinear step is proved in a small context. */
  lemma SuccTimes(k: nat, v: nat)
    ensures (k + 1) * v == k * v + v
  {
  }

  lemma {:induction false} CountTimesValueAtMostSum(xs: seq<nat>, v: nat)
    ensures Count(xs, v) * v <= Sum(xs)
  {
    if xs != [] {
      CountTimesValueAtMostSum(xs[1..], v);
      var k := Count(xs[1..], v);
      assert Sum(xs) == xs[0] + Sum(xs[1..]);
      if xs[0] == v {
        assert Count(xs, v) == k + 1;
        SuccTimes(k, v);
      } else {
        assert Count(xs, v) == k;
      }
    }
  }

  // ---------------------------------------------------------------------
  // get_win_loss_streaks
  // ---------------------------------------------------------------------

  /** `get_win_loss_streaks(results, target)`. */
  function LongestStreak(results: seq<char>, target: char): (r: Result<Streak>)
    ensures r.Err? ==> r.error == IndexError
    ensures r.Ok? ==> r.value.count >= 1
  {
    var streaks := SortDescending(StreakLengths(GroupBy(results), target));
    if streaks == [] then Err(IndexError)
    else
      assert streaks[0] in multiset(streaks);
      Ok(Streak(streaks[0], Count(streaks, streaks[0])))
  }

  /** The call fails, with IndexError, exactly when `target` does not occur
      in `results`; in particular it fails on an empty list. */
  lemma LongestStreakFailsIffAbsent(results: seq<char>, target: char)
    ensures LongestStreak(results, target).Ok? <==> target in results
    ensures LongestStreak(results, target).Err? ==> LongestStreak(results, target).error == IndexError
  {
    var ls := StreakLengths(GroupBy(results), target);
    StreakLengthsSum(GroupBy(results), results, target);
    assert |SortDescending(ls)| == |multiset(ls)| == |ls|;
  }

  /** When `target` occurs, the result is the greatest length among the
      maximal runs of `target`, and the number of such runs (runs, not games)
      that have that length. */
  lemma LongestStreakIsLongestRun(results: seq<char>, target: char)
    requires target in results
    ensures LongestStreak(results, target).Ok?
    ensures var ls := StreakLengths(GroupBy(results), target);
            var st := LongestStreak(results, target).value;
            && st.longest in ls
            && (forall l :: l in ls ==> l <= st.longest)
            && st.count == multiset(ls)[st.longest]
  {
    LongestStreakFailsIffAbsent(results, target);
    var ls := StreakLengths(GroupBy(results), target);
    var sorted := SortDescending(ls);
    assert sorted[0] in multiset(sorted);
    forall l | l in ls
      ensures l <= sorted[0]
    {
      assert l in multiset(sorted);
      var j :| 0 <= j < |sorted| && sorted[j] == l;
      assert j == 0 || sorted[0] >= sorted[j];
    }
  }

  // ---------------------------------------------------------------------
  // Reference definition: the longest window of consecutive targets
  // ---------------------------------------------------------------------

  /** Positions `i .. i + len - 1` of `s` all hold `c`. */
  predicate IsStreakAt(s: seq<char>, c: char, i: int, len: int)
  {
    0 <= i && 0 <= len && i + len <= |s| && forall p :: i <= p < i + len ==> s[p] == c
  }

  /** Every non-empty window of `c` lies inside one run keyed `c`. */
  lemma {:induction false} WindowWithinRun(rs: seq<Run>, s: seq<char>, c: char, i: int, len: int)
    requires IsRunPartition(rs, s) && IsStreakAt(s, c, i, len) && len > 0
    ensures exists l :: l in StreakLengths(rs, c) && len <= l
  {
    assert rs != [];
    TailIsRunPartition(rs, s);
    var r, rest := rs[0], rs[1..];
    var t := Flatten(rest);
    var n := |r.members|;
    assert IsRun(r);
    if i < n {
      assert s[i] == r.members[i] == r.key == c;
      assert n < |s| ==> rest != [] && s[n] == t[0] == rs[1].key != c;
      assert i + len <= n;
      assert StreakLengths(rs, c) == [n] + StreakLengths(rest, c);
      assert n in StreakLengths(rs, c);
    } else {
      assert IsStreakAt(t, c, i - n, len) by {
        forall p | i - n <= p < i - n + len
          ensures t[p] == c
        {
          assert t[p] == s[p + n];
        }
      }
      WindowWithinRun(rest, t, c, i - n, len);
      var l :| l in StreakLengths(rest, c) && len <= l;
      var head := if r.key == c then [n] else [];
      assert StreakLengths(rs, c) == head + StreakLengths(rest, c);
      assert l in StreakLengths(rs, c);
    }
  }

  /** Every run keyed `c` is a window of `c` in `s`. */
  lemma {:induction false} RunIsWindow(rs: seq<Run>, s: seq<char>, c: char, l: nat)
    requires IsRunPartition(rs, s) && l in StreakLengths(rs, c)
    ensures exists i :: IsStreakAt(s, c, i, l)
  {
    TailIsRunPartition(rs, s);
    var r, rest := rs[0], rs[1..];
    var t := Flatten(rest);
    var n := |r.members|;
    assert IsRun(r);
    var head := if r.key == c then [n] else [];
    assert StreakLengths(rs, c) == head + StreakLengths(rest, c);
    if r.key == c && l == n {
      assert IsStreakAt(s, c, 0, l);
    } else {
      assert l in StreakLengths(rest, c);
      RunIsWindow(rest, t, c, l);
      var i :| IsStreakAt(t, c, i, l);
      assert IsStreakAt(s, c, i + n, l) by {
        forall p | i + n <= p < i + n + l
          ensures s[p] == c
        {
          assert s[p] == t[p - n];
        }
      }
    }
  }

  /** The longest streak is the longest stretch of consecutive `target`
      results, stated without any grouping: some window of that length
      exists and no longer window does. */
  lemma LongestStreakIsLongestWindow(results: seq<char>, target: char)
    requires target in results
    ensures LongestStreak(results, target).Ok?
    ensures var m := LongestStreak(results, target).value.longest;
            && (exists i :: IsStreakAt(results, target, i, m))
            && (forall i, len :: IsStreakAt(results, target, i, len) ==> len <= m)
  {
    LongestStreakIsLongestRun(results, target);
    var rs := GroupBy(results);
    var m := LongestStreak(results, target).value.longest;
    RunIsWindow(rs, results, target, m);
    forall i, len | IsStreakAt(results, target, i, len)
      ensures len <= m
    {
      if len > 0 {
        WindowWithinRun(rs, results, target, i, len);
      }
    }
  }

  /** Bounds: the longest streak is between 1 and the number of results, at
      least one streak reaches it, and those streaks together use no more
      than the occurrences of `target`. */
  lemma LongestStreakBounds(results: seq<char>, target: char)
    requires target in results
    ensures LongestStreak(results, target).Ok?
    ensures var st := LongestStreak(results, target).value;
            && 1 <= st.longest <= |results|
            && 1 <= st.count
            && st.count * st.longest <= multiset(results)[target]
  {
    LongestStreakIsLongestRun(results, target);
    LongestStreakIsLongestWindow(results, target);
    var ls := StreakLengths(GroupBy(results), target);
    var st := LongestStreak(results, target).value;
    StreakLengthsSum(GroupBy(results), results, target);
    var j :| 0 <= j < |ls| && ls[j] == st.longest;
    assert st.longest >= 1;
    assert st.count >= 1 by {
      assert st.longest in multiset(ls);
    }
    CountTimesValueAtMostSum(ls, st.longest);
  }

  lemma SortTwo(a: nat, b: nat)
    ensures SortDescending([a, b]) == if a >= b then [a, b] else [b, a]
  {
    assert [a, b][1..] == [b];
    assert [b][1..] == [];
    assert SortDescending([b]) == Insert(b, []) == [b];
    if a < b {
      assert Insert(a, [b]) == [b] + Insert(a, []) == [b, a];
    }
  }

  /** Worked case: runs of two and three wins; the longest occurs once. */
  lemma StreakExampleLongestOnce(results: seq<char>)
    requires results == "WWLWWWL"
    ensures LongestStreak(results, 'W') == Ok(Streak(3, 1))
  {
    var ga := [Run('W', "WW"), Run('L', "L"), Run('W', "WWW"), Run('L', "L")];
    assert GroupBy(results) == ga by {
      assert IsRun(ga[0]) && IsRun(ga[1]) && IsRun(ga[2]) && IsRun(ga[3]);
      assert IsRunPartition(ga, results);
      RunPartitionUnique(ga, results);
    }
    assert StreakLengths(ga, 'W') == [2, 3];
    SortTwo(2, 3);
    assert Count([3, 2], 3) == 1;
  }

  /** Worked case: two equally long streaks are both counted. */
  lemma StreakExampleTie(results: seq<char>)
    requires results == "WLWL"
    ensures LongestStreak(results, 'W') == Ok(Streak(1, 2))
  {
    var gb := [Run('W', "W"), Run('L', "L"), Run('W', "W"), Run('L', "L")];
    assert GroupBy(results) == gb by {
      assert IsRun(gb[0]) && IsRun(gb[1]) && IsRun(gb[2]) && IsRun(gb[3]);
      assert IsRunPartition(gb, results);
      RunPartitionUnique(gb, results);
    }
    assert StreakLengths(gb, 'W') == [1, 1];
    SortTwo(1, 1);
    assert Count([1, 1], 1) == 2;
  }

  /** Worked case: results without any win make the call fail. */
  lemma StreakExampleAbsent()
    ensures LongestStreak("LLL", 'W') == Err(IndexError)
    ensures LongestStreak("", 'W') == Err(IndexError)
  {
    LongestStreakFailsIffAbsent("LLL", 'W');
    LongestStreakFailsIffAbsent("", 'W');
  }
}
