// shell_alphabetize: the help listing's order, a bubble sort of the indices
// of the help table by command name, leaving the table's NULL entry last.

module ShellHelp {

  /** strcmp(a, b) < 0 for strings without NUL. */
  predicate StrLess(a: seq<char>, b: seq<char>)
  {
    if a == [] then b != []
    else b != [] && (a[0] < b[0] || (a[0] == b[0] && StrLess(a[1..], b[1..])))
  }

  lemma {:induction false} StrLessAsymmetric(a: seq<char>, b: seq<char>)
    ensures !(StrLess(a, b) && StrLess(b, a))
  {
    if a != [] && b != [] && a[0] == b[0] {
      StrLessAsymmetric(a[1..], b[1..]);
    }
  }

  lemma {:induction false} StrLessTransitive(a: seq<char>, b: seq<char>, c: seq<char>)
    requires StrLess(a, b) && StrLess(b, c)
    ensures StrLess(a, c)
  {
    if a != [] && a[0] == b[0] && b[0] == c[0] {
      StrLessTransitive(a[1..], b[1..], c[1..]);
    }
  }

  lemma {:induction false} StrLessTotal(a: seq<char>, b: seq<char>)
    ensures a == b || StrLess(a, b) || StrLess(b, a)
  {
    if a != [] && b != [] && a[0] == b[0] {
      StrLessTotal(a[1..], b[1..]);
      assert a == [a[0]] + a[1..] && b == [b[0]] + b[1..];
    }
  }

  /** Neither-before is transitive: the order strcmp gives is total. */
  lemma NotLessTransitive(a: seq<char>, b: seq<char>, c: seq<char>)
    requires !StrLess(b, a) && !StrLess(c, b)
    ensures !StrLess(c, a)
  {
    StrLessTotal(a, b);
    if StrLess(c, a) && StrLess(a, b) {
      StrLessTransitive(c, a, b);
    }
  }

  /** Each name is not before the one ahead of it: the condition under which a pass swaps nothing. */
  predicate AdjacentSorted(keys: seq<seq<char>>)
  {
    forall k | 1 <= k < |keys| :: !StrLess(keys[k], keys[k - 1])
  }

  /** A list sorted pair by pair is sorted throughout. */
  lemma {:induction false} SortedThroughout(keys: seq<seq<char>>, j: nat, k: nat)
    requires AdjacentSorted(keys) && j <= k < |keys|
    ensures !StrLess(keys[k], keys[j])
    decreases k - j
  {
    if j == k {
      StrLessAsymmetric(keys[j], keys[j]);
    } else {
      SortedThroughout(keys, j, k - 1);
      NotLessTransitive(keys[j], keys[k - 1], keys[k]);
    }
  }

  /** The names listed in the order given by idx. */
  function Keys(names: seq<seq<char>>, idx: seq<nat>): (keys: seq<seq<char>>)
    requires forall k | 0 <= k < |idx| :: idx[k] < |names|
    ensures |keys| == |idx|
  {
    seq(|idx|, k requires 0 <= k < |idx| => names[idx[k]])
  }

  /** No index appears twice. */
  predicate Distinct(s: seq<nat>)
  {
    forall j, k | 0 <= j < k < |s| :: s[j] != s[k]
  }

  /** s with the entries at k - 1 and k exchanged. */
  function Swap<T>(s: seq<T>, k: nat): (r: seq<T>)
    requires 0 < k < |s|
    ensures |r| == |s|
  {
    s[k - 1 := s[k]][k := s[k - 1]]
  }

  // Termination: the number of out-of-order pairs falls with every swap.

  /** How many of t sort strictly before x. */
  function Below(x: seq<char>, t: seq<seq<char>>): nat
  {
    if t == [] then 0 else (if StrLess(t[0], x) then 1 else 0) + Below(x, t[1..])
  }

  /** The number of pairs out of order. */
  function Inversions(s: seq<seq<char>>): nat
  {
    if s == [] then 0 else Below(s[0], s[1..]) + Inversions(s[1..])
  }

  lemma {:induction false} BelowSwap(x: seq<char>, t: seq<seq<char>>, k: nat)
    requires 0 < k < |t|
    ensures Below(x, Swap(t, k)) == Below(x, t)
  {
    var u := Swap(t, k);
    if k == 1 {
      assert u[1..][1..] == t[1..][1..];
    } else {
      assert u[1..] == Swap(t[1..], k - 1);
      BelowSwap(x, t[1..], k - 1);
    }
  }

  /** Swapping a pair that is out of order removes one inversion. */
  lemma {:induction false} SwapDecreases(s: seq<seq<char>>, k: nat)
    requires 0 < k < |s| && StrLess(s[k], s[k - 1])
    ensures Inversions(Swap(s, k)) < Inversions(s)
  {
    var u := Swap(s, k);
    if k == 1 {
      var r := s[2..];
      assert s[1..][1..] == r && u[1..][1..] == r;
      StrLessAsymmetric(s[0], s[1]);
    } else {
      assert u[1..] == Swap(s[1..], k - 1);
      BelowSwap(s[0], s[1..], k - 1);
      SwapDecreases(s[1..], k - 1);
    }
  }

  /** Swapping two entries keeps the indices distinct and in range. */
  lemma SwapKeepsIndices(s: seq<nat>, k: nat, bound: nat)
    requires 0 < k < |s| && Distinct(s) && forall j | 0 <= j < |s| :: s[j] < bound
    ensures Distinct(Swap(s, k)) && forall j | 0 <= j < |s| :: Swap(s, k)[j] < bound
  {
    var u := Swap(s, k);
    forall a, b | 0 <= a < b < |u|
      ensures u[a] != u[b]
    {
      var a' := if a == k - 1 then k else if a == k then k - 1 else a;
      var b' := if b == k - 1 then k else if b == k then k - 1 else b;
      assert u[a] == s[a'] && u[b] == s[b'] && a' != b';
    }
  }

  /** The exchange of the entries at i - 1 and i. */
  method SwapAdjacent(order: array<nat>, i: nat)
    requires 0 < i < order.Length
    modifies order
    ensures order[..] == Swap(old(order[..]), i)
  {
    var cur := order[i];
    var prev := order[i - 1];
    order[i] := prev;
    order[i - 1] := cur;
  }

  /** One comparison of the pass: the pair at i - 1, i is exchanged when its names are out of order. */
  method CompareAndSwap(names: seq<seq<char>>, order: array<nat>, i: nat) returns (swapped: bool)
    requires order.Length == |names| + 1 && 0 < i < |names|
    requires order[|names|] == |names| && Distinct(order[..])
    requires forall k | 0 <= k < |names| :: order[k] < |names|
    modifies order
    ensures order[|names|] == |names| && Distinct(order[..])
    ensures forall k | 0 <= k < |names| :: order[k] < |names|
    ensures swapped == StrLess(old(names[order[i]]), old(names[order[i - 1]]))
    ensures swapped ==> Inversions(Keys(names, order[..|names|])) < old(Inversions(Keys(names, order[..|names|])))
    ensures !swapped ==> order[..] == old(order[..])
  {
    var n := |names|;
    swapped := StrLess(names[order[i]], names[order[i - 1]]);
    if swapped {
      ghost var before := order[..n];
      ghost var whole := order[..];
      SwapKeepsIndices(before, i, n);
      SwapKeepsIndices(whole, i, n + 1);
      SwapAdjacent(order, i);
      assert order[..n] == Swap(before, i);
      assert Keys(names, order[..n]) == Swap(Keys(names, before), i);
      SwapDecreases(Keys(names, before), i);
    }
  }

  /**
   * One pass of the do-while over positions 1..|names|-1: afterwards either
   * some pair was exchanged and the disorder fell, or none was and the
   * names are in order.
   */
  method Pass(names: seq<seq<char>>, order: array<nat>) returns (swapped: bool)
    requires order.Length == |names| + 1 && |names| >= 2
    requires order[|names|] == |names| && Distinct(order[..])
    requires forall k | 0 <= k < |names| :: order[k] < |names|
    modifies order
    ensures order[|names|] == |names| && Distinct(order[..])
    ensures forall k | 0 <= k < |names| :: order[k] < |names|
    ensures swapped ==> Inversions(Keys(names, order[..|names|])) < old(Inversions(Keys(names, order[..|names|])))
    ensures !swapped ==> AdjacentSorted(Keys(names, order[..|names|]))
  {
    var n := |names|;
    ghost var start := Inversions(Keys(names, order[..n]));
    swapped := false;
    var i := 1;
    while i < n
      invariant 1 <= i <= n
      invariant order[n] == n && Distinct(order[..])
      invariant forall k | 0 <= k < n :: order[k] < n
      invariant swapped ==> Inversions(Keys(names, order[..n])) < start
      invariant !swapped ==> Inversions(Keys(names, order[..n])) == start
      invariant !swapped ==> forall k | 1 <= k < i :: !StrLess(names[order[k]], names[order[k - 1]])
    {
      var s := CompareAndSwap(names, order, i);
      swapped := swapped || s;
      i := i + 1;
    }
  }

  /**
   * shell_alphabetize for a help table of the given names followed by its
   * NULL entry: the returned indices are each of 0..|names| once, the NULL
   * entry's index stays last, and the names in that order are sorted.
   */
  method Alphabetize(names: seq<seq<char>>) returns (order: array<nat>)
    requires |names| >= 2
    ensures fresh(order) && order.Length == |names| + 1 && order[|names|] == |names|
    ensures Distinct(order[..]) && forall k | 0 <= k < order.Length :: order[k] < order.Length
    ensures forall k | 0 <= k < |names| :: order[k] < |names|
    ensures AdjacentSorted(Keys(names, order[..|names|]))
  {
    var n := |names|;
    order := new nat[n + 1](k => k);
    var sorted := false;
    while !sorted
      invariant order.Length == n + 1 && order[n] == n && Distinct(order[..])
      invariant forall k | 0 <= k < n :: order[k] < n
      invariant sorted ==> AdjacentSorted(Keys(names, order[..n]))
      decreases !sorted, Inversions(Keys(names, order[..n]))
    {
      var swapped := Pass(names, order);
      sorted := !swapped;
    }
  }

  /** The help listing lists the commands in strcmp order from first to last. */
  lemma HelpOrderSorted(names: seq<seq<char>>, order: seq<nat>, j: nat, k: nat)
    requires forall m | 0 <= m < |order| :: order[m] < |names|
    requires AdjacentSorted(Keys(names, order)) && j <= k < |order|
    ensures !StrLess(names[order[k]], names[order[j]])
  {
    SortedThroughout(Keys(names, order), j, k);
  }
}
