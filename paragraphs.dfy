/**
 * The `only-one-par` rule: in every `.art-data` element, the first `.par`
 * carries the class `only-one-par` exactly when it is the only `.par` there.
 */
module Paragraphs {

  const OnlyOnePar: string := "only-one-par"

  /** A `.par` element, with its class list. */
  class Par {
    var classList: set<string>

    constructor (classList: set<string>)
      ensures this.classList == classList
    {
      this.classList := classList;
    }
  }

  /** An `.art-data` element: its `.par` descendants in document order. */
  datatype ArtData = ArtData(pars: seq<Par>)

  /**
   * The class list of the first `.par` after the rule, given how many `.par`
   * elements its `.art-data` holds: `only-one-par` is added, or removed, and
   * no other class is touched.
   */
  function RuleClasses(classes: set<string>, parCount: nat): (r: set<string>)
    ensures OnlyOnePar in r <==> parCount == 1
    ensures r - {OnlyOnePar} == classes - {OnlyOnePar}
  {
    if parCount == 1 then classes + {OnlyOnePar} else classes - {OnlyOnePar}
  }

  /**
   * The rule looks only at the remaining classes and the count, so applying
   * it again overrides the earlier application; in particular it is idempotent.
   */
  lemma {:induction false} RuleOverrides(classes: set<string>, first: nat, second: nat)
    ensures RuleClasses(RuleClasses(classes, first), second) == RuleClasses(classes, second)
  {
    RuleDependsOnOthersOnly(RuleClasses(classes, first), classes, second);
  }

  /** Two class lists that agree apart from `only-one-par` get the same result. */
  lemma RuleDependsOnOthersOnly(c1: set<string>, c2: set<string>, parCount: nat)
    requires c1 - {OnlyOnePar} == c2 - {OnlyOnePar}
    ensures RuleClasses(c1, parCount) == RuleClasses(c2, parCount)
  {
    var r1, r2 := RuleClasses(c1, parCount), RuleClasses(c2, parCount);
    forall x | x in r1 ensures x in r2 {
      if x != OnlyOnePar {
        assert x in c1 - {OnlyOnePar};
      }
    }
    forall x | x in r2 ensures x in r1 {
      if x != OnlyOnePar {
        assert x in c2 - {OnlyOnePar};
      }
    }
  }

  /** The first `.par` of each `.art-data` that has one. */
  function FirstPars(artData: seq<ArtData>): set<Par> {
    set i | 0 <= i < |artData| && artData[i].pars != [] :: artData[i].pars[0]
  }

  /**
   * Whether no later `.art-data` among the first `n` shares its first
   * `.par` with the one at `i` (nested elements can share it); the last
   * one to touch a `.par` decides its classes.
   */
  predicate LastToTouch(artData: seq<ArtData>, i: nat, n: nat)
    requires i < |artData| && n <= |artData| && artData[i].pars != []
  {
    forall j :: i < j < n && artData[j].pars != [] ==> artData[j].pars[0] != artData[i].pars[0]
  }

  /**
   * The `forEach` over `.art-data`: each first `.par` gets the class list the
   * rule gives for its own element's `.par` count, the last element to reach
   * it deciding; classes other than `only-one-par` stay as they were, and an
   * `.art-data` without a `.par` is skipped.
   */
  method MarkOnlyOnePar(artData: seq<ArtData>)
    modifies FirstPars(artData)
    ensures forall i :: 0 <= i < |artData| && artData[i].pars != [] ==>
              artData[i].pars[0].classList - {OnlyOnePar}
                == old(artData[i].pars[0].classList) - {OnlyOnePar}
    ensures forall i :: 0 <= i < |artData| && artData[i].pars != [] && LastToTouch(artData, i, |artData|) ==>
              artData[i].pars[0].classList
                == RuleClasses(old(artData[i].pars[0].classList), |artData[i].pars|)
  {
    for index := 0 to |artData|
      invariant forall i :: 0 <= i < |artData| && artData[i].pars != [] ==>
                  artData[i].pars[0].classList - {OnlyOnePar}
                    == old(artData[i].pars[0].classList) - {OnlyOnePar}
      invariant forall i :: 0 <= i < index && artData[i].pars != [] && LastToTouch(artData, i, index) ==>
                  artData[i].pars[0].classList
                    == RuleClasses(old(artData[i].pars[0].classList), |artData[i].pars|)
    {
      var pars := artData[index].pars;
      if pars != [] {
        RuleDependsOnOthersOnly(pars[0].classList, old(pars[0].classList), |pars|);
      }
      if |pars| == 1 {
        var firstPar := pars[0];
        firstPar.classList := firstPar.classList + {OnlyOnePar};
      } else if pars != [] {
        var firstPar := pars[0];
        firstPar.classList := firstPar.classList - {OnlyOnePar};
      }
    }
  }
}
