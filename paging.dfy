/**
 * `display_data`: while the user says yes, show the next five raw rows. The user's answers
 * are a parameter, one per prompt; a session that has no further answer stops as a "no" does.
 */
module Paging {
  import Text

  const YesAnswers: seq<string> := ["yes", "y", "yep", "yea"]

  predicate IsYes(answer: string) { Text.Lower(answer) in YesAnswers }

  /** The paging prompt ignores letter case. */
  lemma YesIgnoresCase(answer: string)
    ensures IsYes(answer) <==> IsYes(Text.Lower(answer))
  {
    Text.LowerIdempotent(answer);
  }

  /** The answer to the `k`-th prompt, counting from 0. */
  function AnswerAt(answers: seq<string>, k: nat): string
  {
    if k < |answers| then answers[k] else ""
  }

  /** How many answers, from the first one on, are yes. */
  function LeadingYes(answers: seq<string>): nat
  {
    if answers == [] || !IsYes(answers[0]) then 0 else 1 + LeadingYes(answers[1..])
  }

  /** `LeadingYes` counts the answers before the first answer that is not yes. */
  lemma {:induction false} LeadingYesMeaning(answers: seq<string>)
    ensures LeadingYes(answers) <= |answers|
    ensures forall k :: 0 <= k < LeadingYes(answers) ==> IsYes(answers[k])
    ensures LeadingYes(answers) < |answers| ==> !IsYes(answers[LeadingYes(answers)])
  {
    if answers != [] && IsYes(answers[0]) {
      LeadingYesMeaning(answers[1..]);
    }
  }

  /** Before the prompts run out of yes answers, the `k`-th answer is yes exactly when `k` is below their count. */
  lemma {:induction false} YesAt(answers: seq<string>, k: nat)
    requires k <= LeadingYes(answers)
    ensures IsYes(AnswerAt(answers, k)) <==> k < LeadingYes(answers)
  {
    LeadingYesMeaning(answers);
    assert !IsYes("");
  }

  /** The smaller of two counts. */
  function Min2(a: nat, b: nat): nat { if a <= b then a else b }

  /** How many pages the guard `index + 5 < n` lets through for a table of `n` rows. */
  function PageLimit(n: nat): (p: nat)
    ensures n == 0 || 5 * p < n
    ensures n <= 5 * p + 5
  {
    if n == 0 then 0 else (n - 1) / 5
  }

  /** The rows of the pages, one after the other. */
  function Concat<T>(pages: seq<seq<T>>): seq<T>
  {
    if pages == [] then [] else Concat(pages[..|pages| - 1]) + pages[|pages| - 1]
  }

  lemma ConcatSnoc<T>(pages: seq<seq<T>>, page: seq<T>)
    ensures Concat(pages + [page]) == Concat(pages) + page
  {
    assert (pages + [page])[..|pages|] == pages;
  }

  /** A slice `t[..i]` followed by `t[i..j]` is `t[..j]`. */
  lemma PrefixThenSlice<T>(t: seq<T>, i: nat, j: nat)
    requires i <= j <= |t|
    ensures t[..i] + t[i..j] == t[..j]
  {
  }

  /** The `k`-th page of `t`, counting from 0; the last page may hold fewer than five rows. */
  function Page<T>(t: seq<T>, k: nat): (page: seq<T>)
    requires 5 * k < |t|
    ensures 0 < |page| <= 5
  {
    t[5 * k .. Min2(5 * k + 5, |t|)]
  }

  /** The pages `0 .. |pages| - 1` of `t`, joined, are the rows of `t` up to the end of the last one. */
  lemma {:induction false} ConcatOfPages<T>(t: seq<T>, pages: seq<seq<T>>)
    requires forall k :: 0 <= k < |pages| ==> 5 * k < |t| && pages[k] == Page(t, k)
    ensures Concat(pages) == t[..Min2(5 * |pages|, |t|)]
  {
    if pages != [] {
      var n := |pages| - 1;
      ConcatOfPages(t, pages[..n]);
      ConcatSnoc(pages[..n], pages[n]);
      assert pages[..n] + [pages[n]] == pages;
      PrefixThenSlice(t, 5 * n, Min2(5 * n + 5, |t|));
    }
  }

  /** `display_data(df)` as written. */
  method DisplayData<T>(t: seq<T>, answers: seq<string>) returns (shown: seq<seq<T>>)
    ensures |shown| == Min2(LeadingYes(answers), PageLimit(|t|))
    ensures forall k :: 0 <= k < |shown| ==> shown[k] == t[5 * k .. 5 * k + 5]
    ensures |t| == 0 || 5 * |shown| < |t|
    ensures Concat(shown) == t[..5 * |shown|]
  {
    var index := 0;
    var answer := AnswerAt(answers, 0);
    YesAt(answers, 0);
    shown := [];
    while IsYes(answer) && index + 5 < |t|
      invariant index == 5 * |shown|
      invariant |shown| <= LeadingYes(answers) && |shown| <= PageLimit(|t|)
      invariant IsYes(answer) <==> |shown| < LeadingYes(answers)
      invariant forall k :: 0 <= k < |shown| ==> shown[k] == t[5 * k .. 5 * k + 5]
      decreases |t| - index
    {
      shown := shown + [t[index .. index + 5]];
      index := index + 5;
      answer := AnswerAt(answers, |shown|);
      YesAt(answers, |shown|);
    }
    assert forall k :: 0 <= k < |shown| ==> 5 * k < |t| && shown[k] == Page(t, k);
    ConcatOfPages(t, shown);
  }

  /** How many pages a table of `n` rows has, the last one possibly short. */
  function PageCount(n: nat): (p: nat)
    ensures 5 * p >= n
    ensures p == 0 || 5 * p - 5 < n
  {
    (n + 4) / 5
  }

  /** `display_data` with the guard `index < n`, which reaches the last, possibly short, page. */
  method DisplayAllData<T>(t: seq<T>, answers: seq<string>) returns (shown: seq<seq<T>>)
    ensures |shown| == Min2(LeadingYes(answers), PageCount(|t|))
    ensures forall k :: 0 <= k < |shown| ==> 5 * k < |t| && shown[k] == Page(t, k)
    ensures Concat(shown) == t[..Min2(5 * |shown|, |t|)]
    ensures LeadingYes(answers) >= PageCount(|t|) ==> Concat(shown) == t
  {
    var index := 0;
    var answer := AnswerAt(answers, 0);
    YesAt(answers, 0);
    shown := [];
    while IsYes(answer) && index < |t|
      invariant index == 5 * |shown|
      invariant |shown| <= LeadingYes(answers) && |shown| <= PageCount(|t|)
      invariant IsYes(answer) <==> |shown| < LeadingYes(answers)
      invariant forall k :: 0 <= k < |shown| ==> 5 * k < |t| && shown[k] == Page(t, k)
      decreases |t| - index
    {
      var page := Page(t, |shown|);
      shown := shown + [page];
      index := index + 5;
      answer := AnswerAt(answers, |shown|);
      YesAt(answers, |shown|);
    }
    ConcatOfPages(t, shown);
  }

  /**
   * As written, a table of five rows shows nothing even to a "yes"; with the guard `index < n`
   * it shows its one page. In general the last row is never on a page as written.
   */
  lemma LastPageNeverShown(n: nat, answers: seq<string>)
    requires n > 0
    ensures 5 * Min2(LeadingYes(answers), PageLimit(n)) < n
    ensures LeadingYes(answers) >= PageCount(n) ==> 5 * Min2(LeadingYes(answers), PageCount(n)) >= n
  {
  }

  lemma FiveRowsExample()
    ensures Min2(LeadingYes(["yes"]), PageLimit(5)) == 0
    ensures Min2(LeadingYes(["yes"]), PageCount(5)) == 1
  {
    assert IsYes("yes") by {
      Text.LowerOfLowercase("yes");
    }
    assert LeadingYes(["yes"]) == 1 by {
      assert ["yes"][1..] == [];
    }
  }
}
