/** The one collection idiom the mapper uses: `rows?.Select(f).ToList()`.
    The null-conditional `?.` gives null for a null collection; `Select`
    projects each element in iteration order and `ToList` materialises the
    projection as a fresh list. */
module Linq {
  import opened Wrappers

  /** `xs.Select(f).ToList()` on a non-null collection: one result per
      element, in the same order, each the image of its source element. */
  function Select<A, B>(xs: seq<A>, f: A --> B): (r: seq<B>)
    requires forall x <- xs :: f.requires(x)
    ensures |r| == |xs|
    ensures forall i :: 0 <= i < |xs| ==> r[i] == f(xs[i])
  {
    if xs == [] then [] else [f(xs[0])] + Select(xs[1..], f)
  }

  /** `xs?.Select(f).ToList()`: null in, null out; otherwise `Select`. */
  function SelectToList<A, B>(xs: Option<seq<A>>, f: A --> B): (r: Option<seq<B>>)
    requires xs.Some? ==> forall x <- xs.value :: f.requires(x)
    ensures r.None? <==> xs.None?
    ensures xs.Some? ==> |r.value| == |xs.value|
    ensures xs.Some? ==> forall i :: 0 <= i < |xs.value| ==> r.value[i] == f(xs.value[i])
  {
    match xs
    case None => None
    case Some(s) => Some(Select(s, f))
  }

  /** The relational reading of `xs?.Select(f).ToList()`: `ys` is null
      exactly when `xs` is, and otherwise has one element per element of
      `xs`, in order, the i-th standing in relation `image` to the i-th. */
  ghost predicate Projects<A, B>(xs: Option<seq<A>>, ys: Option<seq<B>>, image: (A, B) -> bool) {
    && (ys.None? <==> xs.None?)
    && (xs.Some? && ys.Some? ==>
          && |ys.value| == |xs.value|
          && forall i :: 0 <= i < |xs.value| ==> image(xs.value[i], ys.value[i]))
  }
}
