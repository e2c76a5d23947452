/** Parameterised SQL built step by step: each clause the handler decides to push is pushed
    with the next `$k` placeholder (a running `paramCount` starting at 1), and its value is
    pushed onto the bound-value list at the same position. */
module SqlParams {
  import opened Text

  /** One clause to push: its text before the placeholder, and the value it binds. */
  datatype Clause<V> = Clause(test: string, value: V)

  /** The placeholder for parameter `k` (counted from 1). */
  function Placeholder(k: nat): (r: string)
    ensures |r| >= 2 && r[0] == '$'
  {
    "$" + FormatNat(k, 10)
  }

  /** Distinct parameters get distinct placeholders. */
  lemma PlaceholderInjective(j: nat, k: nat)
    requires Placeholder(j) == Placeholder(k)
    ensures j == k
  {
    assert Placeholder(j)[1..] == FormatNat(j, 10);
    assert Placeholder(k)[1..] == FormatNat(k, 10);
    ParseFormat(j, 10);
    ParseFormat(k, 10);
  }

  /** The text of clause `c` bound to parameter `k`. */
  function ClauseText<V>(c: Clause<V>, k: nat): string
  {
    c.test + " " + Placeholder(k)
  }

  /** The clause texts for `done`, numbered from `$1` in order. */
  function Numbering<V>(done: seq<Clause<V>>): (r: seq<string>)
    ensures |r| == |done|
  {
    if done == [] then [] else Numbering(done[..|done| - 1]) + [ClauseText(done[|done| - 1], |done|)]
  }

  /** The values `done` binds, in order. */
  function ValuesOf<V>(done: seq<Clause<V>>): (r: seq<V>)
    ensures |r| == |done|
  {
    if done == [] then [] else ValuesOf(done[..|done| - 1]) + [done[|done| - 1].value]
  }

  /** Clause `k` uses placeholder `$(k+1)`, and that placeholder is bound to the value of the
      same clause. */
  lemma {:induction false} NumberingMatchesValues<V>(done: seq<Clause<V>>, k: nat)
    requires k < |done|
    ensures Numbering(done)[k] == ClauseText(done[k], k + 1)
    ensures ValuesOf(done)[k] == done[k].value
  {
    if k < |done| - 1 {
      NumberingMatchesValues(done[..|done| - 1], k);
    }
  }

  /** The clause `c`, when `push` holds. */
  function When<V>(push: bool, c: Clause<V>): (r: seq<Clause<V>>)
    ensures |r| <= 1 && (r == [c] <==> push)
  {
    if push then [c] else []
  }

  /** One block of a builder: when `push` holds,
      `clauses.push(`${test} $${paramCount++}`)` followed by `values.push(value)`. */
  method PushWhen<V>(clauses: seq<string>, values: seq<V>, paramCount: nat,
                     push: bool, c: Clause<V>, ghost done: seq<Clause<V>>)
    returns (clauses': seq<string>, values': seq<V>, paramCount': nat)
    requires clauses == Numbering(done) && values == ValuesOf(done) && paramCount == |done| + 1
    ensures clauses' == Numbering(done + When(push, c)) && values' == ValuesOf(done + When(push, c))
    ensures paramCount' == |done + When(push, c)| + 1
  {
    clauses', values', paramCount' := clauses, values, paramCount;
    if push {
      assert (done + [c])[..|done|] == done;
      clauses' := clauses' + [c.test + " " + Placeholder(paramCount')];
      paramCount' := paramCount' + 1;
      values' := values' + [c.value];
    } else {
      assert done + When(push, c) == done;
    }
  }
}
