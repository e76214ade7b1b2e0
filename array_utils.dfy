/** The array utilities: `findMax`, `findMin` and `removeDuplicates` over an array
    of numbers. Numbers are integers here; the empty-array results of the two folds
    are the infinities of `ExtInt`. */
module ArrayUtils {
  import opened Common

  /** Message of the error thrown when the argument is not an array. */
  const InputNotArray := "Input must be an array"

  /** A number as `findMax`/`findMin` return it: finite, or one of the two infinities. */
  datatype ExtInt = NegInf | PosInf | Fin(n: int)

  /** The argument of the array utilities: an array of numbers, or any other value. */
  datatype NumbersArg = Numbers(items: seq<int>) | NotArray

  /** The largest element of `s`; the fold starts from -Infinity, so an empty
      sequence gives -Infinity. */
  function MaxOf(s: seq<int>): (r: ExtInt)
    ensures s == [] ==> r == NegInf
    ensures s != [] ==> r.Fin? && r.n in s && forall x :: x in s ==> x <= r.n
  {
    if s == [] then NegInf
    else
      var rest := MaxOf(s[1..]);
      assert s == [s[0]] + s[1..];
      if rest.Fin? && s[0] < rest.n then rest else Fin(s[0])
  }

  /** The smallest element of `s`; the fold starts from +Infinity, so an empty
      sequence gives +Infinity. */
  function MinOf(s: seq<int>): (r: ExtInt)
    ensures s == [] ==> r == PosInf
    ensures s != [] ==> r.Fin? && r.n in s && forall x :: x in s ==> r.n <= x
  {
    if s == [] then PosInf
    else
      var rest := MinOf(s[1..]);
      assert s == [s[0]] + s[1..];
      if rest.Fin? && rest.n < s[0] then rest else Fin(s[0])
  }

  function FindMax(input: NumbersArg): (r: Result<ExtInt>)
    ensures input.NotArray? ==> r == Err(InputNotArray)
    ensures input.Numbers? && input.items == [] ==> r == Ok(NegInf)
    ensures input.Numbers? && input.items != [] ==>
      r.Ok? && r.value.Fin? && r.value.n in input.items &&
      forall x :: x in input.items ==> x <= r.value.n
  {
    match input
    case NotArray => Err(InputNotArray)
    case Numbers(items) => Ok(MaxOf(items))
  }

  function FindMin(input: NumbersArg): (r: Result<ExtInt>)
    ensures input.NotArray? ==> r == Err(InputNotArray)
    ensures input.Numbers? && input.items == [] ==> r == Ok(PosInf)
    ensures input.Numbers? && input.items != [] ==>
      r.Ok? && r.value.Fin? && r.value.n in input.items &&
      forall x :: x in input.items ==> r.value.n <= x
  {
    match input
    case NotArray => Err(InputNotArray)
    case Numbers(items) => Ok(MinOf(items))
  }

  /** The maximum of a non-empty sequence is the only element that bounds all others. */
  lemma MaxOfIsUnique(s: seq<int>, m: int)
    requires m in s && forall x :: x in s ==> x <= m
    ensures MaxOf(s) == Fin(m)
  {
  }

  predicate NoRepeats(s: seq<int>) {
    forall i, j :: 0 <= i < j < |s| ==> s[i] != s[j]
  }

  /** Index of the first occurrence of `x` in `s`. */
  function IndexOf(s: seq<int>, x: int): (k: nat)
    requires x in s
    ensures k < |s| && s[k] == x && x !in s[..k]
  {
    if s[0] == x then 0 else 1 + IndexOf(s[1..], x)
  }

  /** Scan `s` left to right, keeping a value only if it is not yet in `seen`. */
  function DedupFrom(s: seq<int>, seen: set<int>): (r: seq<int>)
    ensures NoRepeats(r)
    ensures forall x :: x in r <==> x in s && x !in seen
  {
    if s == [] then []
    else if s[0] in seen then DedupFrom(s[1..], seen)
    else [s[0]] + DedupFrom(s[1..], seen + {s[0]})
  }

  /** `s` without repeated values, each value kept at its first occurrence. */
  function Dedup(s: seq<int>): (r: seq<int>)
    ensures NoRepeats(r)
    ensures forall x :: x in r <==> x in s
    ensures InFirstOccurrenceOrder(r, s)
  {
    DedupFromKeepsFirstOccurrenceOrder(s, {});
    DedupFrom(s, {})
  }

  function RemoveDuplicates(input: NumbersArg): (r: Result<seq<int>>)
    ensures input.NotArray? ==> r == Err(InputNotArray)
    ensures input.Numbers? ==>
      r.Ok? && NoRepeats(r.value) && forall x :: x in r.value <==> x in input.items
    ensures input.Numbers? ==> InFirstOccurrenceOrder(r.value, input.items)
    ensures input.Numbers? ==> r.value == Dedup(input.items)
  {
    match input
    case NotArray => Err(InputNotArray)
    case Numbers(items) => Ok(Dedup(items))
  }

  /** Every value of `r` occurs in `s`, and `r` lists them in the order of their
      first occurrences in `s`. */
  predicate InFirstOccurrenceOrder(r: seq<int>, s: seq<int>) {
    && (forall x :: x in r ==> x in s)
    && forall i, j :: 0 <= i < j < |r| ==> IndexOf(s, r[i]) < IndexOf(s, r[j])
  }

  /** The values kept from `s` appear in the order of their first occurrences in `s`. */
  lemma {:induction false} DedupFromKeepsFirstOccurrenceOrder(s: seq<int>, seen: set<int>)
    ensures InFirstOccurrenceOrder(DedupFrom(s, seen), s)
  {
    if s != [] {
      var r := DedupFrom(s, seen);
      var seen' := if s[0] in seen then seen else seen + {s[0]};
      var t := DedupFrom(s[1..], seen');
      DedupFromKeepsFirstOccurrenceOrder(s[1..], seen');
      assert r == if s[0] in seen then t else [s[0]] + t;
      forall i, j | 0 <= i < j < |r|
        ensures IndexOf(s, r[i]) < IndexOf(s, r[j])
      {
        assert 0 <= i < j < |r|;
        if s[0] in seen {
          assert r[i] != s[0] && r[j] != s[0];
          assert IndexOf(s, r[i]) == 1 + IndexOf(s[1..], t[i]);
          assert IndexOf(s, r[j]) == 1 + IndexOf(s[1..], t[j]);
          assert IndexOf(s[1..], t[i]) < IndexOf(s[1..], t[j]);
        } else {
          assert r[j] == t[j - 1] && r[j] != s[0];
          assert IndexOf(s, r[j]) == 1 + IndexOf(s[1..], t[j - 1]);
          if i > 0 {
            assert r[i] == t[i - 1] && r[i] != s[0];
            assert IndexOf(s, r[i]) == 1 + IndexOf(s[1..], t[i - 1]);
            assert IndexOf(s[1..], t[i - 1]) < IndexOf(s[1..], t[j - 1]);
          }
        }
      }
    }
  }

  /** A sequence without repeats that avoids `seen` passes through unchanged. */
  lemma {:induction false} DedupFromOfUnique(s: seq<int>, seen: set<int>)
    requires NoRepeats(s)
    requires forall i :: 0 <= i < |s| ==> s[i] !in seen
    ensures DedupFrom(s, seen) == s
  {
    if s != [] {
      var tail := s[1..];
      assert forall i :: 0 <= i < |tail| ==> tail[i] == s[i + 1];
      assert NoRepeats(tail);
      assert forall i :: 0 <= i < |tail| ==> tail[i] !in seen + {s[0]};
      DedupFromOfUnique(tail, seen + {s[0]});
      assert s == [s[0]] + tail;
    }
  }

  /** An already-unique array comes back unchanged. */
  lemma DedupOfUnique(s: seq<int>)
    requires NoRepeats(s)
    ensures Dedup(s) == s
  {
    DedupFromOfUnique(s, {});
  }

  lemma DedupIdempotent(s: seq<int>)
    ensures Dedup(Dedup(s)) == Dedup(s)
  {
    DedupOfUnique(Dedup(s));
  }

  lemma MaxAndMinExamples()
    ensures FindMax(Numbers([1, 2, 2, 3, 3, 3])) == Ok(Fin(3))
    ensures FindMax(Numbers([-1, -2])) == Ok(Fin(-1))
    ensures FindMin(Numbers([-1, -2])) == Ok(Fin(-2))
    ensures FindMax(Numbers([])) == Ok(NegInf) && FindMin(Numbers([])) == Ok(PosInf)
  {
  }

  lemma DedupExampleNegatives()
    ensures Dedup([-1, -2, -2, 0, 1, 1]) == [-1, -2, 0, 1]
  {
    var none: set<int> := {};
    assert none + {-1} == {-1} && {-1} + {-2} == {-1, -2};
    assert {-1, -2} + {0} == {-1, -2, 0} && {-1, -2, 0} + {1} == {-1, -2, 0, 1};
    calc {
      DedupFrom([-1, -2, -2, 0, 1, 1], none);
      [-1] + DedupFrom([-2, -2, 0, 1, 1], {-1});
      [-1, -2] + DedupFrom([-2, 0, 1, 1], {-1, -2});
      [-1, -2] + DedupFrom([0, 1, 1], {-1, -2});
      [-1, -2, 0] + DedupFrom([1, 1], {-1, -2, 0});
      [-1, -2, 0, 1] + DedupFrom([1], {-1, -2, 0, 1});
      [-1, -2, 0, 1] + DedupFrom([], {-1, -2, 0, 1});
      [-1, -2, 0, 1];
    }
  }

  lemma DedupExampleZeros()
    ensures Dedup([0, 0, 0]) == [0]
  {
    var none: set<int> := {};
    assert none + {0} == {0};
    calc {
      DedupFrom([0, 0, 0], none);
      [0] + DedupFrom([0, 0], {0});
      [0] + DedupFrom([0], {0});
      [0] + DedupFrom([], {0});
      [0];
    }
  }
}
