/** scripts/coverage_debt.py: the search for the tracker issue. */
module TrackerIssue {
  import opened Text
  import opened Markers

  /** An issue or pull request; `trusted` says that its author belongs to the project. */
  datatype Item = Item(trusted: bool, body: Option<string>, pullRequest: bool, number: int)

  datatype SearchError = NotExactlyOne | BelongsToPullRequest | InvalidNumber

  function MarksOf(item: Item, marker: string): nat
    requires marker != ""
  {
    if item.trusted && item.body.Some? then Count(item.body.value, marker) else 0
  }

  /** Only trusted items count, each occurrence once. */
  lemma MarksOfMeans(item: Item, marker: string)
    requires marker != ""
    ensures MarksOf(item, marker) > 0 <==> item.trusted && item.body.Some? && Contains(item.body.value, marker)
    ensures item.trusted && item.body.Some? ==> MarksOf(item, marker) == Count(item.body.value, marker)
  {
    if item.body.Some? { CountZero(item.body.value, marker); }
  }

  /** Item k has the only marker of the first n. */
  predicate OnlyIn(items: seq<Item>, n: nat, k: nat, marker: string)
    requires marker != "" && n <= |items|
  {
    k < n && MarksOf(items[k], marker) == 1 && forall j | 0 <= j < n && j != k :: MarksOf(items[j], marker) == 0
  }

  predicate NoneIn(items: seq<Item>, n: nat, marker: string)
    requires marker != "" && n <= |items|
  {
    forall j | 0 <= j < n :: MarksOf(items[j], marker) == 0
  }

  lemma NoneStep(items: seq<Item>, i: nat, marker: string)
    requires marker != "" && i < |items|
    ensures NoneIn(items, i + 1, marker) <==> NoneIn(items, i, marker) && MarksOf(items[i], marker) == 0
  {
  }

  lemma OnlyStep(items: seq<Item>, i: nat, k: nat, marker: string)
    requires marker != "" && i < |items|
    ensures OnlyIn(items, i + 1, k, marker) <==>
              if k == i then MarksOf(items[i], marker) == 1 && NoneIn(items, i, marker)
              else MarksOf(items[i], marker) == 0 && OnlyIn(items, i, k, marker)
  {
    if k != i && OnlyIn(items, i + 1, k, marker) { assert MarksOf(items[i], marker) == 0; }
  }

  ghost predicate Undecided(items: seq<Item>, n: nat, marker: string)
    requires marker != "" && n <= |items|
  {
    forall k: nat :: !OnlyIn(items, n, k, marker)
  }

  lemma UndecidedStep(items: seq<Item>, i: nat, marker: string)
    requires marker != "" && i < |items|
    requires !(NoneIn(items, i, marker) && MarksOf(items[i], marker) == 1)
    requires MarksOf(items[i], marker) == 0 ==> Undecided(items, i, marker)
    ensures Undecided(items, i + 1, marker)
  {
    var n := i + 1;
    forall k: nat ensures !OnlyIn(items, n, k, marker) {
      OnlyStep(items, i, k, marker);
    }
  }

  /** The issue is found if and only if the trusted items have one marker in all, in an
      issue with a number. */
  method FindTrackerIssue(items: seq<Item>, marker: string) returns (r: Result<nat, SearchError>)
    requires marker != ""
    ensures r == Failure(NotExactlyOne) <==> forall k: nat :: !OnlyIn(items, |items|, k, marker)
    ensures forall k: nat | OnlyIn(items, |items|, k, marker) ::
              r == if items[k].pullRequest then Failure(BelongsToPullRequest)
                   else if items[k].number < 0 then Failure(InvalidNumber)
                   else Success(items[k].number)
  {
    var occurrences: nat, matches: seq<nat> := 0, [];
    for i := 0 to |items|
      invariant occurrences == 0 <==> NoneIn(items, i, marker)
      invariant occurrences == 0 <==> matches == []
      invariant forall m | m in matches :: m < i
      invariant occurrences == 1 ==> |matches| == 1 && OnlyIn(items, i, matches[0], marker)
      invariant occurrences != 1 ==> Undecided(items, i, marker)
    {
      var count := MarksOf(items[i], marker);
      NoneStep(items, i, marker);
      if occurrences + count != 1 { UndecidedStep(items, i, marker); }
      OnlyStep(items, i, i, marker);
      if matches != [] { OnlyStep(items, i, matches[0], marker); }
      occurrences := occurrences + count;
      if count > 0 { matches := matches + [i]; }
    }
    if occurrences != 1 || |matches| != 1 { return Failure(NotExactlyOne); }
    var tracker := items[matches[0]];
    if tracker.pullRequest { return Failure(BelongsToPullRequest); }
    if tracker.number < 0 { return Failure(InvalidNumber); }
    r := Success(tracker.number);
  }
}
