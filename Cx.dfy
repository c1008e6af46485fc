/**
 * `cx`: a class list from tokens, skipping the falsy ones.
 */
module Cx {
  /** One argument: a class token, or one of the falsy values the signature
      admits. */
  datatype ClassArg = Cls(token: string) | False | Null | Undefined

  /** `Boolean(arg)`. */
  predicate Truthy(a: ClassArg) {
    a.Cls? && a.token != ""
  }

  /** The tokens `filter(Boolean)` keeps, in order. */
  function Kept(args: seq<ClassArg>): (r: seq<string>)
    ensures |r| <= |args|
    ensures forall i :: 0 <= i < |r| ==> r[i] != ""
  {
    if args == [] then []
    else (if Truthy(args[0]) then [args[0].token] else []) + Kept(args[1..])
  }

  /** `join(sep)`. */
  function Join(xs: seq<string>, sep: string): string {
    if xs == [] then "" else if |xs| == 1 then xs[0] else xs[0] + sep + Join(xs[1..], sep)
  }

  /** `cx(...classes)`: the list is empty exactly when no argument is truthy. */
  function ClassNames(args: seq<ClassArg>): (r: string)
    ensures r == "" <==> forall i :: 0 <= i < |args| ==> !Truthy(args[i])
  {
    KeptEmptyIff(args);
    JoinNonEmpty(Kept(args), " ");
    Join(Kept(args), " ")
  }

  lemma {:induction false} KeptAppend(a: seq<ClassArg>, b: seq<ClassArg>)
    ensures Kept(a + b) == Kept(a) + Kept(b)
  {
    if a == [] {
      assert a + b == b;
    } else {
      assert (a + b)[1..] == a[1..] + b;
      KeptAppend(a[1..], b);
    }
  }

  lemma {:induction false} KeptEmptyIff(args: seq<ClassArg>)
    ensures Kept(args) == [] <==> forall i :: 0 <= i < |args| ==> !Truthy(args[i])
  {
    if args != [] {
      KeptEmptyIff(args[1..]);
      assert forall i :: 1 <= i < |args| ==> args[i] == args[1..][i - 1];
    }
  }

  lemma {:induction false} JoinAppend(xs: seq<string>, ys: seq<string>, sep: string)
    ensures Join(xs + ys, sep) == if xs == [] then Join(ys, sep) else if ys == [] then Join(xs, sep)
                                  else Join(xs, sep) + sep + Join(ys, sep)
  {
    if xs == [] {
      assert xs + ys == ys;
    } else if ys == [] {
      assert xs + ys == xs;
    } else if |xs| == 1 {
      assert (xs + ys)[1..] == ys;
    } else {
      assert (xs + ys)[1..] == xs[1..] + ys;
      JoinAppend(xs[1..], ys, sep);
    }
  }

  lemma {:induction false} JoinNonEmpty(xs: seq<string>, sep: string)
    requires forall i :: 0 <= i < |xs| ==> xs[i] != ""
    ensures Join(xs, sep) == "" <==> xs == []
  {
    if |xs| > 1 {
      JoinNonEmpty(xs[1..], sep);
    }
  }

  /** Arguments keep their order: the classes of two argument lists put
      together are the classes of each, joined by one space when both have
      some. */
  lemma AppendOrder(a: seq<ClassArg>, b: seq<ClassArg>)
    ensures ClassNames(a + b) == if ClassNames(a) == "" then ClassNames(b)
                                 else if ClassNames(b) == "" then ClassNames(a)
                                 else ClassNames(a) + " " + ClassNames(b)
  {
    KeptAppend(a, b);
    JoinAppend(Kept(a), Kept(b), " ");
    JoinNonEmpty(Kept(a), " ");
    JoinNonEmpty(Kept(b), " ");
  }

  /** A falsy argument contributes nothing wherever it stands. */
  lemma FalsyIgnored(a: seq<ClassArg>, x: ClassArg, b: seq<ClassArg>)
    requires !Truthy(x)
    ensures ClassNames(a + [x] + b) == ClassNames(a + b)
  {
    KeptAppend(a + [x], b);
    KeptAppend(a, [x]);
    KeptAppend(a, b);
    assert Kept([x]) == [] by {
      assert [x][1..] == [];
    }
    assert Kept(a) + [] == Kept(a);
    assert Kept(a + [x] + b) == Kept(a + b);
  }

  /** One truthy token among falsy arguments is the whole list. */
  lemma SingleToken(a: seq<ClassArg>, c: string, b: seq<ClassArg>)
    requires c != ""
    requires forall i :: 0 <= i < |a| ==> !Truthy(a[i])
    requires forall i :: 0 <= i < |b| ==> !Truthy(b[i])
    ensures ClassNames(a + [Cls(c)] + b) == c
  {
    KeptEmptyIff(a);
    KeptEmptyIff(b);
    KeptAppend(a + [Cls(c)], b);
    KeptAppend(a, [Cls(c)]);
    assert Kept([Cls(c)]) == [c] by {
      assert [Cls(c)][1..] == [];
    }
  }
}
