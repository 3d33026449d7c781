/** The background's guess at which book page is on screen.

    Once a second the background walks two lists of page elements, the
    elements of class `page` and the elements whose id starts with `page-`,
    and remembers the 1-based position of the last one that is not hidden;
    the second list, walked after the first, has the last word.  Only the
    lists' "hidden" flags matter, so each list is a `seq<bool>`. */
module PageScan {

  datatype Option<T> = None | Some(value: T)

  /** The index of the last element that is not hidden, if any. */
  function LastVisible(hidden: seq<bool>): (r: Option<nat>)
    ensures r.Some? ==> r.value < |hidden| && !hidden[r.value]
    ensures r.Some? ==> forall j :: r.value < j < |hidden| ==> hidden[j]
    ensures r.None? ==> forall j :: 0 <= j < |hidden| ==> hidden[j]
  {
    if hidden == [] then None
    else if !hidden[|hidden| - 1] then Some(|hidden| - 1)
    else LastVisible(hidden[..|hidden| - 1])
  }

  /** What one walk leaves in the page variable that started as `prior`. */
  function ScanResult(hidden: seq<bool>, prior: int): int
  {
    match LastVisible(hidden)
    case None => prior
    case Some(k) => k + 1
  }

  /** The page both walks detect, starting from page 1. */
  function DetectedPage(pagesHidden: seq<bool>, bookPagesHidden: seq<bool>): (p: int)
    ensures 1 <= p
    ensures
      (exists j :: 0 <= j < |bookPagesHidden| && !bookPagesHidden[j]) ==>
      && p <= |bookPagesHidden| && !bookPagesHidden[p - 1]
      && forall j :: p <= j < |bookPagesHidden| ==> bookPagesHidden[j]
    ensures
      (forall j :: 0 <= j < |bookPagesHidden| ==> bookPagesHidden[j]) &&
      (exists j :: 0 <= j < |pagesHidden| && !pagesHidden[j]) ==>
      && p <= |pagesHidden| && !pagesHidden[p - 1]
      && forall j :: p <= j < |pagesHidden| ==> pagesHidden[j]
    ensures
      (forall j :: 0 <= j < |bookPagesHidden| ==> bookPagesHidden[j]) &&
      (forall j :: 0 <= j < |pagesHidden| ==> pagesHidden[j]) ==>
      p == 1
  {
    ScanResult(bookPagesHidden, ScanResult(pagesHidden, 1))
  }

  /** A walk extended by one element. */
  lemma ScanStep(hidden: seq<bool>, i: nat, prior: int)
    requires i < |hidden|
    ensures ScanResult(hidden[..i + 1], prior) == if !hidden[i] then i + 1 else ScanResult(hidden[..i], prior)
  {
    assert hidden[..i + 1][..i] == hidden[..i];
  }

  /** The two forEach walks of the polling callback. */
  method DetectPage(pagesHidden: seq<bool>, bookPagesHidden: seq<bool>) returns (newCurrentPage: int)
    ensures newCurrentPage == DetectedPage(pagesHidden, bookPagesHidden)
  {
    newCurrentPage := 1;
    for index := 0 to |pagesHidden|
      invariant newCurrentPage == ScanResult(pagesHidden[..index], 1)
    {
      ScanStep(pagesHidden, index, 1);
      if !pagesHidden[index] {
        newCurrentPage := index + 1;
      }
    }
    assert pagesHidden[..|pagesHidden|] == pagesHidden;
    ghost var afterPages := newCurrentPage;
    for index := 0 to |bookPagesHidden|
      invariant newCurrentPage == ScanResult(bookPagesHidden[..index], afterPages)
    {
      ScanStep(bookPagesHidden, index, afterPages);
      if !bookPagesHidden[index] {
        newCurrentPage := index + 1;
      }
    }
    assert bookPagesHidden[..|bookPagesHidden|] == bookPagesHidden;
  }
}
