/** States whose steps span every state. */
module Spans {
  import opened Words
  import opened Xoroshiro
  import opened StepPolynomials

  /** A linear form on states: the lowest bit of the first word. */
  predicate Signal(s: State)
    requires |s.first| > 0
  {
    s.first[0]
  }

  /** The signal stays silent along the steps and sounds at the last of `n`. */
  ghost predicate SoundsLast(kind: Kind, s: State, n: nat)
    requires IsState(kind, s)
  {
    forall i | 0 <= i < n :: Signal(Steps(kind, s, i)) == (i == n - 1)
  }

  lemma SignalAdds(kind: Kind, s: State, t: State, bit: bool)
    requires IsState(kind, s) && IsState(kind, t)
    ensures Signal(Add(s, t)) == (Signal(s) != Signal(t))
    ensures Signal(Times(kind, bit, s)) == (bit && Signal(s)) && !Signal(ZeroState(kind))
  {
  }

  /** The signal of a polynomial's value is its last coefficient. */
  lemma {:induction false} LastCoefficient(kind: Kind, w: Word, s: State)
    requires IsState(kind, s) && |w| > 0 && SoundsLast(kind, s, |w|)
    ensures Signal(Evaluate(kind, w, s)) == w[|w| - 1]
  {
    hide Step, Add, Times, Signal;
    var next := Step(kind, s);
    SignalAdds(kind, Times(kind, w[0], s), Evaluate(kind, w[1..], next), w[0]);
    SignalAdds(kind, s, s, w[0]);
    assert Signal(Steps(kind, s, 0)) == (|w| == 1);
    if |w| > 1 {
      forall i | 0 <= i < |w| - 1
        ensures Signal(Steps(kind, next, i)) == (i == |w| - 2)
      {
        assert Steps(kind, next, i) == Steps(kind, s, i + 1);
      }
      LastCoefficient(kind, w[1..], next);
    }
  }

  lemma {:induction false} ZeroStepsOn(kind: Kind, n: nat)
    ensures Steps(kind, ZeroState(kind), n) == ZeroState(kind)
    decreases n
  {
    hide Step;
    if n == 0 {
    } else {
      ZeroSteps(kind);
      ZeroStepsOn(kind, n - 1);
    }
  }

  /** The steps of such a state are linearly independent. */
  lemma {:induction false} OnlyZeroVanishes(kind: Kind, v: State, n: nat, w: Word)
    requires IsState(kind, v) && SoundsLast(kind, v, n) && |w| <= n
    requires Evaluate(kind, w, v) == ZeroState(kind)
    ensures w == Zeros(|w|)
    decreases |w|
  {
    hide Step, Add, Times, Signal;
    if |w| == 0 {
    } else {
      var k := n - |w|;
      var s := Steps(kind, v, k);
      forall i | 0 <= i < |w|
        ensures Signal(Steps(kind, s, i)) == (i == |w| - 1)
      {
        StepsAdd(kind, v, k, i);
      }
      LastCoefficient(kind, w, s);
      EvaluateCommutesWithSteps(kind, w, v, k);
      ZeroStepsOn(kind, k);
      SignalAdds(kind, v, v, false);
      var front := w[..|w| - 1];
      assert w == front + Zeros(1);
      EvaluateConcat(kind, front, Zeros(1), v);
      EvaluateZeros(kind, 1, Steps(kind, v, |front|));
      NothingAccumulated(kind, Evaluate(kind, front, v));
      OnlyZeroVanishes(kind, v, n, front);
    }
  }

  lemma EvaluationsDiffer(kind: Kind, v: State, n: nat, w: Word, x: Word)
    requires IsState(kind, v) && SoundsLast(kind, v, n) && |w| == |x| == n
    requires Evaluate(kind, w, v) == Evaluate(kind, x, v)
    ensures w == x
  {
    hide Evaluate, Add, Xor, SoundsLast;
    EvaluateXor(kind, w, x, v);
    var s := Evaluate(kind, w, v);
    AddLaws(kind, s, s, s, s);
    OnlyZeroVanishes(kind, v, n, Xor(w, x));
    ZeroXor(w, x);
  }

  lemma ZeroXor(w: Word, x: Word)
    requires |w| == |x| && Xor(w, x) == Zeros(|w|)
    ensures w == x
  {
    forall i | 0 <= i < |w|
      ensures w[i] == x[i]
    {
      assert Xor(w, x)[i] == Zeros(|w|)[i];
    }
  }

  // ----- Counting -----------------------------------------------------------

  function AllWords(n: nat): set<Word> {
    if n == 0 then {[]}
    else
      var shorter := AllWords(n - 1);
      (set w | w in shorter :: [false] + w) + (set w | w in shorter :: [true] + w)
  }

  lemma {:induction false} EveryWord(n: nat, w: Word)
    ensures w in AllWords(n) <==> |w| == n
    decreases n
  {
    if n == 0 {
    } else {
      if |w| > 0 {
        EveryWord(n - 1, w[1..]);
        assert w == if w[0] then [true] + w[1..] else [false] + w[1..];
      }
      forall x | x in AllWords(n - 1)
        ensures |x| == n - 1
      {
        EveryWord(n - 1, x);
      }
    }
  }

  function Image(words: set<Word>, f: Word -> Word): set<Word> {
    set w | w in words :: f(w)
  }

  lemma {:induction false} InjectiveKeepsSize(words: set<Word>, f: Word -> Word)
    requires forall w, x | w in words && x in words && f(w) == f(x) :: w == x
    ensures |Image(words, f)| == |words|
    decreases words
  {
    if words == {} {
      assert Image(words, f) == {};
    } else {
      var w :| w in words;
      InjectiveKeepsSize(words - {w}, f);
      assert Image(words, f) == Image(words - {w}, f) + {f(w)};
    }
  }

  lemma {:induction false} SubsetOfSameSize(a: set<Word>, b: set<Word>)
    requires a <= b && |a| == |b|
    ensures a == b
  {
    if w :| w in b && w !in a {
      SubsetIsSmaller(a, b - {w});
    }
  }

  lemma {:induction false} SubsetIsSmaller(a: set<Word>, b: set<Word>)
    requires a <= b
    ensures |a| <= |b|
    decreases a
  {
    if w :| w in a {
      SubsetIsSmaller(a - {w}, b - {w});
    }
  }

  /** A one-to-one map of the words of a width reaches every one of them. */
  lemma InjectiveIsOnto(n: nat, f: Word -> Word, target: Word) returns (source: Word)
    requires forall w | |w| == n :: |f(w)| == n
    requires forall w, x | |w| == n && |x| == n && f(w) == f(x) :: w == x
    requires |target| == n
    ensures |source| == n && f(source) == target
  {
    var words := AllWords(n);
    forall w
      ensures w in words <==> |w| == n
    {
      EveryWord(n, w);
    }
    InjectiveKeepsSize(words, f);
    SubsetOfSameSize(Image(words, f), words);
    source :| source in words && f(source) == target;
  }

  // ----- Everything is spanned ----------------------------------------------

  function Joined(s: State): Word {
    s.first + s.second
  }

  lemma JoinedDetermines(kind: Kind, s: State, t: State)
    requires IsState(kind, s) && IsState(kind, t) && Joined(s) == Joined(t)
    ensures s == t
  {
    assert s.first == Joined(s)[..|s.first|] && s.second == Joined(s)[|s.first|..];
    assert t.first == Joined(t)[..|s.first|] && t.second == Joined(t)[|s.first|..];
  }

  /** The value of a polynomial as one word. */
  function ValueAt(kind: Kind, w: Word, v: State): (value: Word)
    requires IsState(kind, v)
    ensures |value| == kind.Degree()
  {
    Joined(Evaluate(kind, w, v))
  }

  lemma ValuesDiffer(kind: Kind, v: State, w: Word, x: Word)
    requires IsState(kind, v) && SoundsLast(kind, v, kind.Degree()) && |w| == |x| == kind.Degree()
    requires ValueAt(kind, w, v) == ValueAt(kind, x, v)
    ensures w == x
  {
    hide Evaluate, SoundsLast, Joined;
    JoinedDetermines(kind, Evaluate(kind, w, v), Evaluate(kind, x, v));
    EvaluationsDiffer(kind, v, kind.Degree(), w, x);
  }

  /** Every state is a polynomial's value at a state that sounds last. */
  lemma EveryStateIsSpanned(kind: Kind, v: State, target: State) returns (w: Word)
    requires IsState(kind, v) && SoundsLast(kind, v, kind.Degree()) && IsState(kind, target)
    ensures |w| == kind.Degree() && Evaluate(kind, w, v) == target
  {
    hide Evaluate, SoundsLast, Joined;
    var n := kind.Degree();
    var f := (c: Word) => ValueAt(kind, c, v);
    assert forall c, d | |c| == n && |d| == n && f(c) == f(d) :: c == d by {
      hide ValueAt;
      forall c: Word, d: Word | |c| == n && |d| == n && f(c) == f(d)
        ensures c == d
      {
        ValuesDiffer(kind, v, c, d);
      }
    }
    JoinedLength(kind, target);
    w := InjectiveIsOnto(n, f, Joined(target));
    JoinedDetermines(kind, Evaluate(kind, w, v), target);
  }

  lemma JoinedLength(kind: Kind, s: State)
    requires IsState(kind, s)
    ensures |Joined(s)| == kind.Degree()
  {
  }

  /** A polynomial that makes `n` steps on one such state makes them on every state. */
  lemma StepsEverywhere(kind: Kind, v: State, p: Word, n: nat, s: State)
    requires IsState(kind, v) && SoundsLast(kind, v, kind.Degree()) && IsState(kind, s)
    requires Evaluate(kind, p, v) == Steps(kind, v, n)
    ensures Evaluate(kind, p, s) == Steps(kind, s, n)
  {
    hide Evaluate, Steps;
    var w := EveryStateIsSpanned(kind, v, s);
    EvaluationsCommute(kind, p, w, v);
    EvaluateCommutesWithSteps(kind, w, v, n);
  }
}
