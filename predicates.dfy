/** The predicate language that replaces the expression trees the engine
    builds (`Expression.Call(…ToLower…Contains…)`, `Expression.Equal`,
    `GreaterThanOrEqual`, `LessThanOrEqual`, `AndAlso`, `OrElse`), its
    evaluator over one record, and the `Where` filter. */
module Predicates {
  import opened Text
  import opened Values

  datatype Pred =
    | Contains(field: string, needle: string)   // x.field.ToLower().Contains(needle)
    | Eq(field: string, value: Value)           // x.field == value
    | Ge(field: string, bound: int)             // x.field >= bound   (DateTime?)
    | Le(field: string, bound: int)             // x.field <= bound   (DateTime?)
    | And(left: Pred, right: Pred)
    | Or(left: Pred, right: Pred)

  /** Whether a record satisfies a predicate. A null field satisfies no
      `Contains`, no `Ge` and no `Le`, and equals no non-null constant. */
  predicate Eval(p: Pred, r: Record) {
    match p
    case Contains(f, needle) => Field(r, f).VString? && ContainsText(Lower(Field(r, f).s), needle)
    case Eq(f, v) => Field(r, f) == v
    case Ge(f, b) => Field(r, f).VTime? && Field(r, f).ticks >= b
    case Le(f, b) => Field(r, f).VTime? && Field(r, f).ticks <= b
    case And(a, b) => Eval(a, r) && Eval(b, r)
    case Or(a, b) => Eval(a, r) || Eval(b, r)
  }

  /** The disjunction the source's `combinedExpression` fold builds:
      `((p0 || p1) || p2) || …`. */
  function OrAll(ps: seq<Pred>): Pred
    requires |ps| > 0
  {
    if |ps| == 1 then ps[0] else Or(OrAll(ps[..|ps| - 1]), ps[|ps| - 1])
  }

  /** The fold holds of a record exactly when one of its operands does. */
  lemma {:induction false} EvalOrAll(ps: seq<Pred>, r: Record)
    requires |ps| > 0
    ensures Eval(OrAll(ps), r) <==> exists k :: 0 <= k < |ps| && Eval(ps[k], r)
  {
    if |ps| > 1 {
      var init := ps[..|ps| - 1];
      EvalOrAll(init, r);
      if k :| 0 <= k < |init| && Eval(init[k], r) {
        assert ps[k] == init[k];
      }
      if k :| 0 <= k < |ps| && Eval(ps[k], r) {
        if k < |ps| - 1 { assert init[k] == ps[k]; }
      }
    }
  }

  /** `query.Where(p)`: the records satisfying `p`, in their original order. */
  function Where(s: seq<Record>, p: Pred): (res: seq<Record>)
    ensures |res| <= |s|
    ensures forall x :: x in res <==> x in s && Eval(p, x)
    ensures multiset(res) <= multiset(s)
  {
    if |s| == 0 then []
    else
      var rest := Where(s[1..], p);
      assert s == [s[0]] + s[1..];
      if Eval(p, s[0]) then [s[0]] + rest else rest
  }

  predicate HoldsAll(ps: seq<Pred>, r: Record) {
    forall k :: 0 <= k < |ps| ==> Eval(ps[k], r)
  }

  /** The records satisfying every predicate of `ps`, in their original order. */
  function WhereAll(s: seq<Record>, ps: seq<Pred>): (res: seq<Record>)
    ensures |res| <= |s|
  {
    if |s| == 0 then []
    else
      var rest := WhereAll(s[1..], ps);
      if HoldsAll(ps, s[0]) then [s[0]] + rest else rest
  }

  /** The filter keeps exactly the records that satisfy every predicate,
      each at most as often as the input holds it. */
  lemma {:induction false} WhereAllMembers(s: seq<Record>, ps: seq<Pred>)
    ensures forall x :: x in WhereAll(s, ps) <==> x in s && HoldsAll(ps, x)
    ensures multiset(WhereAll(s, ps)) <= multiset(s)
  {
    if |s| > 0 {
      WhereAllMembers(s[1..], ps);
      assert s == [s[0]] + s[1..];
    }
  }

  /** The filter keeps every copy of a record that satisfies every predicate
      and no copy of any other. */
  lemma {:induction false} WhereAllCount(s: seq<Record>, ps: seq<Pred>, x: Record)
    ensures multiset(WhereAll(s, ps))[x] == if HoldsAll(ps, x) then multiset(s)[x] else 0
  {
    if |s| > 0 {
      WhereAllCount(s[1..], ps, x);
      assert s == [s[0]] + s[1..];
    }
  }

  /** The filter keeps the input order: filtering a concatenation filters
      each part in turn. */
  lemma {:induction false} WhereAllAppend(a: seq<Record>, b: seq<Record>, ps: seq<Pred>)
    ensures WhereAll(a + b, ps) == WhereAll(a, ps) + WhereAll(b, ps)
  {
    if |a| == 0 {
      assert a + b == b;
    } else {
      assert (a + b)[1..] == a[1..] + b;
      WhereAllAppend(a[1..], b, ps);
    }
  }

  /** No predicates filter nothing out. */
  lemma {:induction false} WhereAllNone(s: seq<Record>)
    ensures WhereAll(s, []) == s
  {
    if |s| > 0 {
      WhereAllNone(s[1..]);
      assert s == [s[0]] + s[1..];
    }
  }

  /** Chaining `.Where(p)` onto a filtered query conjoins `p` to its filter. */
  lemma {:induction false} WhereAllSnoc(s: seq<Record>, ps: seq<Pred>, p: Pred)
    ensures WhereAll(s, ps + [p]) == Where(WhereAll(s, ps), p)
  {
    if |s| > 0 {
      WhereAllSnoc(s[1..], ps, p);
      var x := s[0];
      assert HoldsAll(ps + [p], x) <==> HoldsAll(ps, x) && Eval(p, x) by {
        if HoldsAll(ps, x) && Eval(p, x) {
          forall k | 0 <= k < |ps + [p]| ensures Eval((ps + [p])[k], x) {
            if k < |ps| { assert (ps + [p])[k] == ps[k]; }
          }
        }
        if HoldsAll(ps + [p], x) {
          assert (ps + [p])[|ps|] == p;
          forall k | 0 <= k < |ps| ensures Eval(ps[k], x) {
            assert (ps + [p])[k] == ps[k];
          }
        }
      }
    }
  }

  /** Filtering depends only on which records satisfy the predicates. */
  lemma {:induction false} WhereAllCongruent(s: seq<Record>, ps: seq<Pred>, qs: seq<Pred>)
    requires forall x :: x in s ==> (HoldsAll(ps, x) <==> HoldsAll(qs, x))
    ensures WhereAll(s, ps) == WhereAll(s, qs)
  {
    if |s| > 0 {
      WhereAllCongruent(s[1..], ps, qs);
    }
  }
}
