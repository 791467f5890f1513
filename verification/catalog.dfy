/** The fixed prompt table of the gallery and the two lists derived from it:
    the category buttons and the prompts shown for the active category. */
module Catalog {

  /** One record of the embedded table; `text` is the prompt sent to the
      generation service and copied to the clipboard. */
  datatype Prompt = Prompt(id: int, category: string, title: string, text: string)

  /** The synthetic category that stands for "no filter". */
  const AllCategory: string := "All"

  /** The eight records embedded in the application, in table order. */
  const Prompts: seq<Prompt> := [
    Prompt(1, "Creative", "Story Starter",
      "Write a short story beginning with the line: \"The last thing I expected to see in my coffee was a tiny, swimming dragon.\""),
    Prompt(2, "Coding", "Regex Helper",
      "Generate a regular expression that validates an email address according to RFC 5322."),
    Prompt(3, "Marketing", "Ad Copy",
      "Write three compelling headlines for a new brand of eco-friendly sneakers."),
    Prompt(4, "Fun", "Movie Pitch",
      "Pitch a movie about a group of squirrels who pull off a heist to steal the world's largest acorn."),
    Prompt(5, "Creative", "Poetry Prompt",
      "Write a haiku about the feeling of a city street after a rainstorm."),
    Prompt(6, "Productivity", "Email Assistant",
      "Draft a polite but firm follow-up email to a colleague who has not responded to a request from three days ago."),
    Prompt(7, "Coding", "Code Explainer",
      "Explain the concept of recursion in simple terms, using a real-world analogy. Provide a simple code example in Python."),
    Prompt(8, "Marketing", "Social Media Post",
      "Create a short, engaging tweet to announce a 24-hour flash sale for a coffee shop.")
  ]

  predicate Distinct<T(==)>(s: seq<T>) {
    forall i, j :: 0 <= i < j < |s| ==> s[i] != s[j]
  }

  /** `a` can be obtained from `b` by deleting elements, keeping the order of the rest. */
  predicate IsSubsequence<T(==)>(a: seq<T>, b: seq<T>)
    decreases |b|
  {
    if a == [] then true
    else if b == [] then false
    else if a[0] == b[0] then IsSubsequence(a[1..], b[1..])
    else IsSubsequence(a, b[1..])
  }

  /** Every sequence is a subsequence of itself. */
  lemma {:induction false} SubsequenceOfItself<T>(s: seq<T>)
    ensures IsSubsequence(s, s)
    decreases |s|
  {
    if s != [] {
      SubsequenceOfItself(s[1..]);
    }
  }

  // ---------------------------------------------------------------------------
  // Categories: "All" followed by the table's categories as a Set keeps them
  // ---------------------------------------------------------------------------

  /** The category of each prompt, in table order. */
  function CategoryColumn(ps: seq<Prompt>): seq<string> {
    seq(|ps|, i requires 0 <= i < |ps| => ps[i].category)
  }

  /** The position of the first occurrence of `x` in `xs`. */
  function FirstIndex<T(==)>(xs: seq<T>, x: T): (k: nat)
    requires x in xs
    ensures k < |xs| && xs[k] == x && x !in xs[..k]
  {
    if xs[0] == x then 0
    else
      var k := 1 + FirstIndex(xs[1..], x);
      assert xs[..k] == [xs[0]] + xs[1..][..k - 1];
      k
  }

  /** The order in which a Set built from `xs` holds its elements: adding a
      value that is already present leaves the Set as it was, adding a new
      one appends it. */
  function InsertionOrder(xs: seq<string>): (r: seq<string>)
    ensures forall x :: x in r <==> x in xs
    ensures Distinct(r)
    decreases |xs|
  {
    if xs == [] then []
    else
      var init, x := xs[..|xs| - 1], xs[|xs| - 1];
      assert xs == init + [x];
      var seen := InsertionOrder(init);
      if x in seen then seen else seen + [x]
  }

  /** The list of category buttons: "All", then each category once. */
  function Categories(ps: seq<Prompt>): (r: seq<string>)
    ensures |r| >= 1 && r[0] == AllCategory
    ensures r[1..] == InsertionOrder(CategoryColumn(ps))
  {
    [AllCategory] + InsertionOrder(CategoryColumn(ps))
  }

  /** What characterises the insertion order independently of how it is
      computed: each value of `xs` exactly once, ordered by first occurrence. */
  ghost predicate IsInsertionOrderOf(r: seq<string>, xs: seq<string>) {
    Distinct(r) &&
    (forall x :: x in r <==> x in xs) &&
    (forall i, j :: 0 <= i < j < |r| ==> FirstIndex(xs, r[i]) < FirstIndex(xs, r[j]))
  }

  lemma FirstIndexUnique<T>(xs: seq<T>, x: T, k: nat)
    requires k < |xs| && xs[k] == x && x !in xs[..k]
    ensures FirstIndex(xs, x) == k
  {
    var f := FirstIndex(xs, x);
    // neither occurrence can come before the other
    assert forall j :: 0 <= j < k ==> xs[..k][j] == xs[j];
    assert forall j :: 0 <= j < f ==> xs[..f][j] == xs[j];
  }

  /** Appending to a sequence does not move the first occurrence of a value already in it. */
  lemma FirstIndexOfPrefix<T>(init: seq<T>, last: T, x: T)
    requires x in init
    ensures FirstIndex(init + [last], x) == FirstIndex(init, x)
  {
    var k := FirstIndex(init, x);
    assert (init + [last])[..k] == init[..k];
    FirstIndexUnique(init + [last], x, k);
  }

  /** A value missing from `init` first occurs at the end of `init + [last]`. */
  lemma FirstIndexOfLast<T>(init: seq<T>, last: T)
    requires last !in init
    ensures FirstIndex(init + [last], last) == |init|
  {
    assert (init + [last])[..|init|] == init;
    FirstIndexUnique(init + [last], last, |init|);
  }

  /** The Set's iteration order lists values by their first occurrence. */
  lemma {:induction false} InsertionOrderFollowsFirstOccurrence(xs: seq<string>)
    ensures forall i, j :: 0 <= i < j < |InsertionOrder(xs)| ==>
      FirstIndex(xs, InsertionOrder(xs)[i]) < FirstIndex(xs, InsertionOrder(xs)[j])
    decreases |xs|
  {
    if xs != [] {
      var init, x := xs[..|xs| - 1], xs[|xs| - 1];
      assert xs == init + [x];
      InsertionOrderFollowsFirstOccurrence(init);
      var seen := InsertionOrder(init);
      var r := InsertionOrder(xs);
      forall y | y in seen
        ensures FirstIndex(xs, y) == FirstIndex(init, y) < |init|
      {
        FirstIndexOfPrefix(init, x, y);
      }
      if x !in seen {
        FirstIndexOfLast(init, x);
        forall i, j | 0 <= i < j < |r|
          ensures FirstIndex(xs, r[i]) < FirstIndex(xs, r[j])
        {
          assert r[i] == seen[i];
          if j < |seen| {
            assert r[j] == seen[j];
          }
        }
      }
    }
  }

  /** The characterisation holds of InsertionOrder ... */
  lemma InsertionOrderIsInsertionOrder(xs: seq<string>)
    ensures IsInsertionOrderOf(InsertionOrder(xs), xs)
  {
    InsertionOrderFollowsFirstOccurrence(xs);
  }

  /** Appending a value already present keeps the characterisation of `init`. */
  lemma InsertionOrderOfRepeat(r: seq<string>, init: seq<string>, x: string)
    requires x in init
    requires IsInsertionOrderOf(r, init + [x])
    ensures IsInsertionOrderOf(r, init)
  {
    var xs := init + [x];
    forall y | y in init
      ensures FirstIndex(xs, y) == FirstIndex(init, y)
    {
      FirstIndexOfPrefix(init, x, y);
    }
    assert forall y :: y in r <==> y in init;
  }

  /** Appending a new value: it has the largest first index of all, so it
      is the last one listed. */
  lemma NewValueIsLast(r: seq<string>, init: seq<string>, x: string)
    requires x !in init
    requires IsInsertionOrderOf(r, init + [x])
    ensures r != [] && r[|r| - 1] == x
  {
    var xs := init + [x];
    assert x in r;
    var n := |r| - 1;
    forall y | y in init
      ensures FirstIndex(xs, y) < |init|
    {
      FirstIndexOfPrefix(init, x, y);
    }
    FirstIndexOfLast(init, x);
    var i :| 0 <= i < |r| && r[i] == x;
    assert r[n] in r;
    assert i == n;
  }

  /** Appending a new value: what precedes it characterises `init`. */
  lemma InsertionOrderOfNew(r: seq<string>, init: seq<string>, x: string)
    requires x !in init
    requires IsInsertionOrderOf(r, init + [x])
    ensures r != [] && r[|r| - 1] == x
    ensures IsInsertionOrderOf(r[..|r| - 1], init)
  {
    NewValueIsLast(r, init, x);
    var xs := init + [x];
    var n := |r| - 1;
    var r' := r[..n];
    assert r == r' + [x];
    assert x !in r' by {
      assert forall j :: 0 <= j < n ==> r'[j] == r[j];
    }
    assert forall y :: y in r' <==> y in init by {
      forall y
        ensures y in r' <==> y in init
      {
        assert y in r <==> y in r' || y == x;
      }
    }
    forall i, j | 0 <= i < j < |r'|
      ensures FirstIndex(init, r'[i]) < FirstIndex(init, r'[j])
    {
      assert r'[i] == r[i] && r'[j] == r[j];
      FirstIndexOfPrefix(init, x, r'[i]);
      FirstIndexOfPrefix(init, x, r'[j]);
    }
  }

  lemma HeadIsElement(r: seq<string>)
    ensures r != [] ==> r[0] in r
  {
  }

  /** ... and of nothing else: any sequence meeting it is InsertionOrder(xs). */
  lemma {:induction false} InsertionOrderUnique(r: seq<string>, xs: seq<string>)
    requires IsInsertionOrderOf(r, xs)
    ensures r == InsertionOrder(xs)
    decreases |xs|
  {
    if xs == [] {
      HeadIsElement(r);
    } else {
      var init, x := xs[..|xs| - 1], xs[|xs| - 1];
      assert xs == init + [x];
      if x in init {
        InsertionOrderOfRepeat(r, init, x);
        InsertionOrderUnique(r, init);
      } else {
        InsertionOrderOfNew(r, init, x);
        InsertionOrderUnique(r[..|r| - 1], init);
        assert r == r[..|r| - 1] + [x];
      }
    }
  }

  /** Every button after "All" names the category of some prompt. */
  lemma CategoriesSound(ps: seq<Prompt>)
    ensures forall i :: 1 <= i < |Categories(ps)| ==>
      exists p :: p in ps && p.category == Categories(ps)[i]
  {
    var r := Categories(ps);
    var col := CategoryColumn(ps);
    forall i | 1 <= i < |r|
      ensures exists p :: p in ps && p.category == r[i]
    {
      assert r[i] == r[1..][i - 1];
      assert r[i] in col;
      var k :| 0 <= k < |col| && col[k] == r[i];
      assert ps[k] in ps;
    }
  }

  /** Every prompt's category has a button after "All". */
  lemma CategoriesComplete(ps: seq<Prompt>)
    ensures forall p :: p in ps ==> p.category in Categories(ps)[1..]
  {
    var col := CategoryColumn(ps);
    forall p | p in ps
      ensures p.category in Categories(ps)[1..]
    {
      var k :| 0 <= k < |ps| && ps[k] == p;
      assert col[k] == p.category;
    }
  }

  /** After "All", no category is listed twice, and categories appear in the
      order in which the table first uses them. */
  lemma CategoriesDistinctInFirstUseOrder(ps: seq<Prompt>)
    ensures Distinct(Categories(ps)[1..])
    ensures forall i, j :: 1 <= i < j < |Categories(ps)| ==>
      FirstIndex(CategoryColumn(ps), Categories(ps)[i]) < FirstIndex(CategoryColumn(ps), Categories(ps)[j])
  {
    var r := Categories(ps);
    InsertionOrderFollowsFirstOccurrence(CategoryColumn(ps));
    forall i, j | 1 <= i < j < |r|
      ensures FirstIndex(CategoryColumn(ps), r[i]) < FirstIndex(CategoryColumn(ps), r[j])
    {
      assert r[i] == r[1..][i - 1] && r[j] == r[1..][j - 1];
    }
  }

  // ---------------------------------------------------------------------------
  // The prompts shown for the active category
  // ---------------------------------------------------------------------------

  /** The prompts whose category is exactly `c`, in table order. */
  function WithCategory(ps: seq<Prompt>, c: string): (r: seq<Prompt>)
    ensures |r| <= |ps|
  {
    if ps == [] then []
    else (if ps[0].category == c then [ps[0]] else []) + WithCategory(ps[1..], c)
  }

  /** The filter keeps exactly the prompts of category `c`. */
  lemma {:induction false} WithCategoryMembers(ps: seq<Prompt>, c: string)
    ensures forall p :: p in WithCategory(ps, c) <==> p in ps && p.category == c
  {
    if ps != [] {
      WithCategoryMembers(ps[1..], c);
      assert forall p :: p in ps <==> p == ps[0] || p in ps[1..];
    }
  }

  /** The gallery's list: the whole table for "All", otherwise the prompts of that category. */
  function FilteredPrompts(ps: seq<Prompt>, active: string): (r: seq<Prompt>)
    ensures active == AllCategory ==> r == ps
    ensures active != AllCategory ==> forall p :: p in r <==> p in ps && p.category == active
  {
    if active == AllCategory then ps
    else
      WithCategoryMembers(ps, active);
      WithCategory(ps, active)
  }

  /** Filtering keeps the table's relative order. */
  lemma {:induction false} WithCategoryIsSubsequence(ps: seq<Prompt>, c: string)
    ensures IsSubsequence(WithCategory(ps, c), ps)
  {
    if ps != [] {
      WithCategoryIsSubsequence(ps[1..], c);
      var r := WithCategory(ps, c);
      if ps[0].category == c {
        assert r[0] == ps[0] && r[1..] == WithCategory(ps[1..], c);
      } else {
        WithCategoryMembers(ps[1..], c);
        assert r == WithCategory(ps[1..], c);
      }
    }
  }

  /** Filtering a concatenation filters each part: no prompt overtakes another. */
  lemma {:induction false} WithCategoryAppend(a: seq<Prompt>, b: seq<Prompt>, c: string)
    ensures WithCategory(a + b, c) == WithCategory(a, c) + WithCategory(b, c)
  {
    if a != [] {
      assert (a + b)[1..] == a[1..] + b;
      WithCategoryAppend(a[1..], b, c);
    } else {
      assert a + b == b;
    }
  }

  /** Filtering the filtered list again changes nothing. */
  lemma {:induction false} WithCategoryIdempotent(ps: seq<Prompt>, c: string)
    ensures WithCategory(WithCategory(ps, c), c) == WithCategory(ps, c)
  {
    if ps != [] {
      var rest := WithCategory(ps[1..], c);
      WithCategoryIdempotent(ps[1..], c);
      if ps[0].category == c {
        WithCategoryAppend([ps[0]], rest, c);
        assert WithCategory([ps[0]], c) == [ps[0]] by {
          assert [ps[0]][1..] == [];
        }
      } else {
        assert [] + rest == rest;
      }
    }
  }

  /** Every category button other than "All" shows at least one prompt. */
  lemma ListedCategoriesAreNonEmpty(ps: seq<Prompt>, c: string)
    requires c in Categories(ps)[1..]
    ensures FilteredPrompts(ps, c) != []
  {
    CategoriesSound(ps);
    var i :| 0 <= i < |Categories(ps)[1..]| && Categories(ps)[1..][i] == c;
    assert Categories(ps)[i + 1] == c;
    var p :| p in ps && p.category == c;
    if c != AllCategory {
      assert p in FilteredPrompts(ps, c);
    } else {
      assert p in ps;
    }
  }

  // ---------------------------------------------------------------------------
  // The embedded table
  // ---------------------------------------------------------------------------

  /** The table's ids are 1 to 8, so each card's key is unique. */
  lemma PromptIdsDistinct()
    ensures |Prompts| == 8
    ensures forall i :: 0 <= i < |Prompts| ==> Prompts[i].id == i + 1
    ensures forall i, j :: 0 <= i < j < |Prompts| ==> Prompts[i].id != Prompts[j].id
  {
  }

  /** The category of each record of the table, in table order. */
  lemma TableCategoryColumn()
    ensures CategoryColumn(Prompts) ==
      ["Creative", "Coding", "Marketing", "Fun", "Creative", "Productivity", "Coding", "Marketing"]
  {
  }

  /** One insertion into the Set: the order of `next == init + [x]` from the order of `init`. */
  lemma InsertionStep(init: seq<string>, x: string, next: seq<string>, seen: seq<string>)
    requires next == init + [x]
    requires InsertionOrder(init) == seen
    ensures InsertionOrder(next) == if x in seen then seen else seen + [x]
  {
    assert next[..|init|] == init;
  }

  /** A column without repeats is its own Set order. */
  lemma {:induction false} InsertionOrderOfDistinct(xs: seq<string>)
    requires Distinct(xs)
    ensures InsertionOrder(xs) == xs
    decreases |xs|
  {
    if xs != [] {
      var init, x := xs[..|xs| - 1], xs[|xs| - 1];
      InsertionOrderOfDistinct(init);
      assert x !in init by {
        assert forall j :: 0 <= j < |init| ==> init[j] == xs[j];
      }
      InsertionStep(init, x, xs, init);
    }
  }

  /** The Set order of any column shaped like the table's: five distinct
      categories, the first three of which come back later. */
  lemma InsertionOrderOfTableShape(a: string, b: string, c: string, d: string, e: string)
    requires a != b && a != c && a != d && a != e && b != c && b != d && b != e
    requires c != d && c != e && d != e
    ensures InsertionOrder([a, b, c, d, a, e, b, c]) == [a, b, c, d, e]
  {
    var all := [a, b, c, d, e];
    assert InsertionOrder([a, b, c, d]) == [a, b, c, d] by {
      InsertionOrderOfDistinct([a, b, c, d]);
    }
    assert InsertionOrder([a, b, c, d, a]) == [a, b, c, d] by {
      InsertionStep([a, b, c, d], a, [a, b, c, d, a], [a, b, c, d]);
    }
    assert InsertionOrder([a, b, c, d, a, e]) == all by {
      InsertionStep([a, b, c, d, a], e, [a, b, c, d, a, e], [a, b, c, d]);
    }
    assert InsertionOrder([a, b, c, d, a, e, b]) == all by {
      InsertionStep([a, b, c, d, a, e], b, [a, b, c, d, a, e, b], all);
    }
    InsertionStep([a, b, c, d, a, e, b], c, [a, b, c, d, a, e, b, c], all);
  }

  /** The Set of categories after inserting the table's column. */
  lemma TableInsertionOrder()
    ensures InsertionOrder(["Creative", "Coding", "Marketing", "Fun", "Creative", "Productivity", "Coding", "Marketing"])
      == ["Creative", "Coding", "Marketing", "Fun", "Productivity"]
  {
    InsertionOrderOfTableShape("Creative", "Coding", "Marketing", "Fun", "Productivity");
  }

  /** The category buttons of the embedded table. */
  lemma TableCategories()
    ensures Categories(Prompts) == ["All", "Creative", "Coding", "Marketing", "Fun", "Productivity"]
  {
    TableCategoryColumn();
    TableInsertionOrder();
  }

  /** One step of the filter: the first prompt is kept exactly when it matches. */
  lemma WithCategoryStep(ps: seq<Prompt>, k: nat, c: string)
    requires k < |ps|
    ensures WithCategory(ps[k..], c) ==
      (if ps[k].category == c then [ps[k]] else []) + WithCategory(ps[k + 1..], c)
  {
    assert ps[k..][0] == ps[k] && ps[k..][1..] == ps[k + 1..];
  }

  /** Two steps of the filter at once. */
  lemma WithCategoryTwoSteps(ps: seq<Prompt>, i: nat, k: string)
    requires i + 2 <= |ps|
    ensures WithCategory(ps[i..], k) ==
      (if ps[i].category == k then [ps[i]] else []) +
      (if ps[i + 1].category == k then [ps[i + 1]] else []) +
      WithCategory(ps[i + 2..], k)
  {
    WithCategoryStep(ps, i, k);
    WithCategoryStep(ps, i + 1, k);
  }

  /** Of the last four of eight prompts, only the seventh has category `k`. */
  lemma SeventhOfLastFour(ps: seq<Prompt>, k: string)
    requires |ps| == 8
    requires ps[4].category != k && ps[5].category != k
    requires ps[6].category == k && ps[7].category != k
    ensures WithCategory(ps[4..], k) == [ps[6]]
  {
    assert WithCategory(ps[6..], k) == [ps[6]] by {
      assert ps[8..] == [];
      WithCategoryTwoSteps(ps, 6, k);
    }
    WithCategoryTwoSteps(ps, 4, k);
  }

  /** Filtering eight prompts of which exactly the second and the seventh
      have category `k` picks those two, in that order. */
  lemma SecondAndSeventh(ps: seq<Prompt>, k: string)
    requires |ps| == 8
    requires ps[0].category != k && ps[1].category == k
    requires ps[2].category != k && ps[3].category != k
    requires ps[4].category != k && ps[5].category != k
    requires ps[6].category == k && ps[7].category != k
    ensures WithCategory(ps, k) == [ps[1], ps[6]]
  {
    SeventhOfLastFour(ps, k);
    assert WithCategory(ps[2..], k) == [ps[6]] by {
      WithCategoryTwoSteps(ps, 2, k);
    }
    assert ps[0..] == ps;
    WithCategoryTwoSteps(ps, 0, k);
  }

  /** Choosing "Coding" shows the prompts with ids 2 and 7, in that order. */
  lemma CodingShowsTwoAndSeven()
    ensures FilteredPrompts(Prompts, "Coding") == [Prompts[1], Prompts[6]]
    ensures FilteredPrompts(Prompts, "Coding")[0].id == 2 && FilteredPrompts(Prompts, "Coding")[1].id == 7
  {
    TableCategoryColumn();
    var col := CategoryColumn(Prompts);
    assert forall i :: 0 <= i < 8 ==> Prompts[i].category == col[i];
    SecondAndSeventh(Prompts, "Coding");
  }
}
