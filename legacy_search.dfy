/**
 * The older search command (`cmd/zotools`): the same checks, normalisation
 * and matching policy as `internal/search`, an author line without
 * initials, and matches that are only printed, never stored.
 */
module LegacySearch {
  import opened Wrappers
  import opened Records
  import opened Strings
  import Decimal
  import Search

  /** One creator as printed: first name, a space, last name. */
  function FullName(author: Creator): string
  {
    author.firstName + " " + author.lastName
  }

  /** The printed names, creator by creator. */
  function FullNames(authors: seq<Creator>): (r: seq<string>)
    ensures |r| == |authors|
    ensures forall i :: 0 <= i < |r| ==> r[i] == FullName(authors[i])
  {
    seq(|authors|, i requires 0 <= i < |authors| => FullName(authors[i]))
  }

  /** `authorsToString`: the full names separated by ", ". */
  method AuthorsToString(authors: seq<Creator>) returns (s: string)
    ensures s == Join(FullNames(authors), ", ")
  {
    var names: seq<string> := [];
    for k := 0 to |authors|
      invariant names == FullNames(authors)[..k]
    {
      names := names + [authors[k].firstName + " " + authors[k].lastName];
    }
    assert FullNames(authors)[..|authors|] == FullNames(authors);
    s := Join(names, ", ");
  }

  /**
   * When no name holds a comma, the author line splits back at the commas
   * into one full name per creator, each after the first behind its space.
   */
  lemma AuthorsSplit(authors: seq<Creator>)
    requires authors != []
    requires forall i :: 0 <= i < |authors| ==> ',' !in authors[i].firstName && ',' !in authors[i].lastName
    ensures Split(Join(FullNames(authors), ", "), ',') == Prefixed(FullNames(authors), ' ')
  {
    var names := FullNames(authors);
    forall i | 0 <= i < |names|
      ensures ',' !in names[i]
    {
      assert names[i] == authors[i].firstName + " " + authors[i].lastName;
    }
    SplitCommaJoin(names);
  }

  /**
   * The two author lines differ on a creator without a first name: the
   * older one keeps the separating space in front of the last name.
   */
  lemma NoFirstName(author: Creator)
    requires author.firstName == ""
    ensures FullName(author) == " " + author.lastName
    ensures Search.AuthorName(author) == author.lastName
  {
  }

  /**
   * `SearchCommand.Run` after flag parsing: the checks of the newer command
   * (`Search.Prepare`), loading the cache with `Load` of `internal/cache` (`None` when it fails), and
   * the items printed: the matches, in library order as the matcher jobs
   * are run one after the other here. Nothing is written.
   */
  method Run(cache: Option<Library>, search: string, flags: Search.Flags, numCPU: nat,
             compile: string -> Option<Search.Pattern>)
    returns (failure: Option<Search.Failure>, printed: seq<Item>)
    requires flags.jobs < Decimal.Uint64Bound && numCPU < 0x8000_0000_0000_0000
    ensures Search.Prepare(search, flags, numCPU, compile).Err? ==>
      failure == Some(Search.Prepare(search, flags, numCPU, compile).error) && printed == []
    ensures Search.Prepare(search, flags, numCPU, compile).Ok? && cache.None? ==>
      failure == Some(Search.LoadStorage) && printed == []
    ensures Search.Prepare(search, flags, numCPU, compile).Ok? && cache.Some? ==>
      failure == None
      && printed == Search.Matched(flags, Search.Prepare(search, flags, numCPU, compile).value, cache.value.items)
  {
    var prepared := Search.Prepare(search, flags, numCPU, compile);
    if prepared.Err? {
      return Some(prepared.error), [];
    }
    if cache.None? {
      return Some(Search.LoadStorage), [];
    }
    printed := Search.MatchAll(flags, prepared.value, cache.value.items);
    failure := None;
  }
}
