/**
 * The arithmetic and bookkeeping of `MainController`
 * (logviewer.core/MainController.cs): the page-size default, the paging
 * counts, the level filters and their guard, the text-filter normalisation,
 * the recent-files reordering, the per-level message counters and level
 * detection from the level markers.
 *
 * Levels are held as the integer a `LogLevel` is cast from and to (Trace is
 * 0, Fatal is 5); a marker is the predicate its regular expression matches.
 */
module Controller {
  import opened Common
  import opened Schema

  const DefaultPageSize: int := 10000

  /** A C# `int` product: the mathematical value wrapped into 32 bits. */
  function Int32(x: int): (r: int)
    ensures -0x8000_0000 <= r < 0x8000_0000
    ensures -0x8000_0000 <= x < 0x8000_0000 ==> r == x
    ensures (r - x) % 0x1_0000_0000 == 0
  {
    (x + 0x8000_0000) % 0x1_0000_0000 - 0x8000_0000
  }

  /** The page size the constructor keeps: a non-positive request falls back to the default. */
  function EffectivePageSize(requested: int): (r: int)
    ensures r > 0
    ensures requested > 0 ==> r == requested
    ensures requested <= 0 ==> r == DefaultPageSize
  {
    if requested <= 0 then DefaultPageSize else requested
  }

  /** The first message of a page: `(page - 1) * pageSize`, an `int` product. */
  function PageStart(currentPage: int, pageSize: int): int {
    Int32((currentPage - 1) * pageSize)
  }

  /** `MessagesCount`: the filtered messages from the start of the current page on. */
  function MessagesCountOf(totalFiltered: int, currentPage: int, pageSize: int): (r: int)
    ensures -0x8000_0000 <= (currentPage - 1) * pageSize < 0x8000_0000 ==>
              r == totalFiltered - (currentPage - 1) * pageSize
    ensures (r - (totalFiltered - (currentPage - 1) * pageSize)) % 0x1_0000_0000 == 0
  {
    totalFiltered - PageStart(currentPage, pageSize)
  }

  /** `DisplayedMessages`: what the current page shows, bounded by the page size and the total. */
  function DisplayedOf(totalFiltered: int, currentPage: int, pageSize: int): (r: int)
    ensures r <= MessagesCountOf(totalFiltered, currentPage, pageSize) && r <= pageSize && r <= totalFiltered
    ensures r == MessagesCountOf(totalFiltered, currentPage, pageSize) || r == pageSize || r == totalFiltered
  {
    var finish := if MessagesCountOf(totalFiltered, currentPage, pageSize) < pageSize
                  then MessagesCountOf(totalFiltered, currentPage, pageSize) else pageSize;
    if finish < totalFiltered then finish else totalFiltered
  }

  /**
   * While the page start fits an `int`, a page that starts inside the
   * filtered messages shows `min(pageSize, rest)` of them, and a page that
   * starts past them shows a negative count.
   */
  lemma DisplayedOnPage(totalFiltered: int, currentPage: int, pageSize: int)
    requires pageSize > 0 && currentPage >= 1 && totalFiltered >= 0
    requires (currentPage - 1) * pageSize < 0x8000_0000
    ensures var start := (currentPage - 1) * pageSize;
            var shown := DisplayedOf(totalFiltered, currentPage, pageSize);
            (start <= totalFiltered ==> 0 <= shown <= pageSize
                                        && shown == (if totalFiltered - start < pageSize then totalFiltered - start else pageSize))
            && (start > totalFiltered ==> shown < 0)
  {
    assert 0 <= (currentPage - 1) * pageSize;
  }

  /** The messages the pages `1 .. n` show together. */
  function ShownUpTo(totalFiltered: int, pageSize: int, n: nat): int {
    if n == 0 then 0 else ShownUpTo(totalFiltered, pageSize, n - 1) + DisplayedOf(totalFiltered, n, pageSize)
  }

  /**
   * The pages partition the filtered messages: while page `n` still starts
   * inside them, the first `n` pages show `min(totalFiltered, n * pageSize)`
   * of them, so the pages up to the one holding the last message show
   * every filtered message exactly once.
   */
  lemma {:induction false} PagesCoverFiltered(totalFiltered: int, pageSize: int, n: nat)
    requires pageSize > 0 && totalFiltered >= 0
    requires n * pageSize < 0x8000_0000
    requires n == 0 || (n - 1) * pageSize <= totalFiltered
    ensures ShownUpTo(totalFiltered, pageSize, n) == if totalFiltered < n * pageSize then totalFiltered else n * pageSize
  {
    if n > 0 {
      ConsecutiveStarts(n, pageSize);
      PagesCoverFiltered(totalFiltered, pageSize, n - 1);
      DisplayedOnPage(totalFiltered, n, pageSize);
    }
  }

  /** Page `n` starts one page size after page `n - 1`. */
  lemma ConsecutiveStarts(n: nat, pageSize: int)
    requires n > 0 && pageSize > 0
    ensures 0 <= (n - 1) * pageSize && (n - 1) * pageSize + pageSize == n * pageSize
    ensures n > 1 ==> (n - 2) * pageSize + pageSize == (n - 1) * pageSize
  {
  }

  /** Why `ReadLog` refuses to start. */
  datatype ReadLogError = MinLevelGreaterThanMax

  /** The guard at the top of `ReadLog`: a minimum above a maximum that is a real level. */
  function CheckLevelRange(minFilter: int, maxFilter: int): (r: Option<ReadLogError>)
    ensures r.Some? ==> minFilter > maxFilter >= LevelValue(Trace)
    ensures minFilter <= maxFilter ==> r.None?
    ensures maxFilter < LevelValue(Trace) ==> r.None?
  {
    if minFilter > maxFilter && maxFilter >= LevelValue(Trace) then Some(MinLevelGreaterThanMax) else None
  }

  /** The text filter kept: none for a null or white-space value, else the value itself. */
  function NormalizeFilter(value: Option<string>): (r: Option<string>)
    ensures r.None? <==> IsNullOrWhiteSpace(value)
    ensures r.Some? ==> r == value && !IsBlank(r.value)
  {
    if IsNullOrWhiteSpace(value) then None else value
  }

  /** Normalising a kept filter changes nothing. */
  lemma NormalizeIdempotent(value: Option<string>)
    ensures NormalizeFilter(NormalizeFilter(value)) == NormalizeFilter(value)
  {
  }

  /** `List.Remove`: drops the first occurrence of `x`, if any. */
  function RemoveFirst(s: seq<string>, x: string): (r: seq<string>)
    ensures x !in s ==> r == s
    ensures x in s ==> |r| == |s| - 1
    decreases |s|
  {
    if s == [] then []
    else if s[0] == x then s[1..]
    else [s[0]] + RemoveFirst(s[1..], x)
  }

  /** The recent-files list after `SaveRecentFiles(path)`: reversed, then `path` moved or added to the end. */
  function SavedRecent(files: seq<string>, path: string): seq<string> {
    RemoveFirst(Reverse(files), path) + [path]
  }

  /** The elements of `s` other than `x`, in order. */
  function Without(s: seq<string>, x: string): (r: seq<string>)
    ensures x !in r
    decreases |s|
  {
    if s == [] then [] else (if s[0] == x then [] else [s[0]]) + Without(s[1..], x)
  }

  lemma {:induction false} RemoveFirstMultiset(s: seq<string>, x: string)
    ensures multiset(RemoveFirst(s, x)) == multiset(s) - multiset{x}
    decreases |s|
  {
    if s != [] {
      assert s == [s[0]] + s[1..];
      if s[0] != x {
        RemoveFirstMultiset(s[1..], x);
      }
    }
  }

  lemma {:induction false} RemoveFirstKeepsOthers(s: seq<string>, x: string)
    ensures Without(RemoveFirst(s, x), x) == Without(s, x)
    decreases |s|
  {
    if s != [] && s[0] != x {
      var rest := RemoveFirst(s[1..], x);
      RemoveFirstKeepsOthers(s[1..], x);
      assert ([s[0]] + rest)[1..] == rest;
    }
  }

  lemma {:induction false} WithoutAppend(s: seq<string>, t: seq<string>, x: string)
    ensures Without(s + t, x) == Without(s, x) + Without(t, x)
    decreases |s|
  {
    if s != [] {
      assert (s + t)[1..] == s[1..] + t;
      WithoutAppend(s[1..], t, x);
    } else {
      assert s + t == t;
    }
  }

  lemma {:induction false} ReverseMultiset(s: seq<string>)
    ensures multiset(Reverse(s)) == multiset(s)
    decreases |s|
  {
    if s != [] {
      ReverseMultiset(s[1..]);
      assert s == [s[0]] + s[1..];
    }
  }

  /** `SaveRecentFiles` ends the list with `path`. */
  lemma SavedRecentEndsWithPath(files: seq<string>, path: string)
    ensures |SavedRecent(files, path)| == |files| + (if path in files then 0 else 1)
    ensures SavedRecent(files, path)[|SavedRecent(files, path)| - 1] == path
  {
    var rev := Reverse(files);
    ReverseMultiset(files);
    assert path in files <==> path in multiset(files);
    assert path in rev <==> path in multiset(rev);
  }

  /** `SaveRecentFiles` adds `path` only when it was missing, and loses no entry. */
  lemma SavedRecentPermutes(files: seq<string>, path: string)
    ensures multiset(SavedRecent(files, path))
            == multiset(files) + (if path in files then multiset{} else multiset{path})
  {
    var rev := Reverse(files);
    ReverseMultiset(files);
    RemoveFirstMultiset(rev, path);
    assert path in files <==> path in multiset(files);
  }

  /** `SaveRecentFiles` keeps every other entry, in the reversed order. */
  lemma SavedRecentKeepsOthers(files: seq<string>, path: string)
    ensures Without(SavedRecent(files, path), path) == Without(Reverse(files), path)
  {
    var rev := Reverse(files);
    RemoveFirstKeepsOthers(rev, path);
    WithoutAppend(RemoveFirst(rev, path), [path], path);
    assert Without([path], path) == [];
  }

  /** `CountMessages`: the counter of a level, 0 for a level never seen. */
  function Counted(byLevel: map<int, int>, level: int): int {
    if level in byLevel then byLevel[level] else 0
  }

  /** `AddMessage`'s counter update: the level's counter goes up by one, or starts at one. */
  function Incremented(byLevel: map<int, int>, level: int): map<int, int> {
    if level in byLevel then byLevel[level := byLevel[level] + 1] else byLevel[level := 1]
  }

  /** The counters after adding messages of the given levels to empty counters. */
  function Tally(levels: seq<int>): map<int, int>
    decreases |levels|
  {
    if levels == [] then map[] else Incremented(Tally(levels[..|levels| - 1]), levels[|levels| - 1])
  }

  /** Every level's counter is the number of messages of that level added. */
  lemma {:induction false} TallyCounts(levels: seq<int>, level: int)
    ensures Counted(Tally(levels), level) == multiset(levels)[level]
    decreases |levels|
  {
    if levels != [] {
      var init := levels[..|levels| - 1];
      TallyCounts(init, level);
      assert levels == init + [levels[|levels| - 1]];
    }
  }

  class MainController {
    /** One predicate per level, in level order: the level's marker. */
    const markers: seq<string -> bool>
    var pageSize: int
    var CurrentPage: int
    var totalFiltered: int
    var minFilter: int
    var maxFilter: int
    var textFilter: Option<string>
    var useRegexp: bool
    var recentFiles: seq<string>
    var byLevel: map<int, int>

    /** Every counter that exists has counted at least one message. */
    ghost predicate Valid()
      reads this
    {
      forall level | level in byLevel :: byLevel[level] >= 1
    }

    constructor(markers: seq<string -> bool>, pageSize: int)
      ensures Valid()
      ensures this.markers == markers && this.pageSize == EffectivePageSize(pageSize) && CurrentPage == 1
      ensures minFilter == LevelValue(Trace) && maxFilter == LevelValue(Fatal) && useRegexp
      ensures textFilter == None && totalFiltered == 0 && recentFiles == [] && byLevel == map[]
    {
      this.markers := markers;
      this.pageSize := if pageSize <= 0 then DefaultPageSize else pageSize;
      CurrentPage := 1;
      totalFiltered := 0;
      minFilter := LevelValue(Trace);
      maxFilter := LevelValue(Fatal);
      textFilter := None;
      useRegexp := true;
      recentFiles := [];
      byLevel := map[];
    }

    /** The messages from the start of the current page on, in 32-bit arithmetic. */
    function MessagesCount(): (r: int)
      reads this
      ensures -0x8000_0000 <= (CurrentPage - 1) * pageSize < 0x8000_0000 ==>
                r == totalFiltered - (CurrentPage - 1) * pageSize
      ensures (r - (totalFiltered - (CurrentPage - 1) * pageSize)) % 0x1_0000_0000 == 0
    {
      MessagesCountOf(totalFiltered, CurrentPage, pageSize)
    }

    /** The messages the current page shows: no more than remain, than a page holds, or than passed the filter. */
    function DisplayedMessages(): (r: int)
      reads this
      ensures r <= MessagesCount() && r <= pageSize && r <= totalFiltered
      ensures r == MessagesCount() || r == pageSize || r == totalFiltered
    {
      DisplayedOf(totalFiltered, CurrentPage, pageSize)
    }

    method MinFilter(value: int)
      modifies this
      ensures minFilter == value
      ensures maxFilter == old(maxFilter) && textFilter == old(textFilter) && byLevel == old(byLevel)
      ensures pageSize == old(pageSize) && recentFiles == old(recentFiles) && useRegexp == old(useRegexp)
    {
      minFilter := value;
    }

    method MaxFilter(value: int)
      modifies this
      ensures maxFilter == value
      ensures minFilter == old(minFilter) && textFilter == old(textFilter) && byLevel == old(byLevel)
      ensures pageSize == old(pageSize) && recentFiles == old(recentFiles) && useRegexp == old(useRegexp)
    {
      maxFilter := value;
    }

    /** `PageSize(value)`: the setter keeps the value as given, without the constructor's default. */
    method PageSize(value: int)
      modifies this
      ensures pageSize == value
      ensures minFilter == old(minFilter) && maxFilter == old(maxFilter) && textFilter == old(textFilter)
      ensures byLevel == old(byLevel) && recentFiles == old(recentFiles) && useRegexp == old(useRegexp)
    {
      pageSize := value;
    }

    method TextFilter(value: Option<string>)
      modifies this
      ensures textFilter == NormalizeFilter(value)
      ensures minFilter == old(minFilter) && maxFilter == old(maxFilter) && pageSize == old(pageSize)
      ensures byLevel == old(byLevel) && recentFiles == old(recentFiles) && useRegexp == old(useRegexp)
    {
      textFilter := if IsNullOrWhiteSpace(value) then None else value;
    }

    method UserRegexp(enabled: bool)
      modifies this
      ensures useRegexp == enabled
      ensures minFilter == old(minFilter) && maxFilter == old(maxFilter) && pageSize == old(pageSize)
      ensures byLevel == old(byLevel) && recentFiles == old(recentFiles) && textFilter == old(textFilter)
    {
      useRegexp := enabled;
    }

    /** The guard `ReadLog` evaluates before it looks at the file. */
    function ReadLogGuard(): (r: Option<ReadLogError>)
      reads this
      ensures r.Some? <==> minFilter > maxFilter && maxFilter >= LevelValue(Trace)
    {
      CheckLevelRange(minFilter, maxFilter)
    }

    /** `SaveRecentFiles`, with `path` the view's log path; writing the list to disk is not modelled. */
    method SaveRecentFiles(path: string)
      modifies this
      ensures recentFiles == SavedRecent(old(recentFiles), path)
      ensures minFilter == old(minFilter) && maxFilter == old(maxFilter) && pageSize == old(pageSize)
      ensures byLevel == old(byLevel) && textFilter == old(textFilter) && useRegexp == old(useRegexp)
    {
      recentFiles := Reverse(recentFiles);
      if path !in recentFiles {
        recentFiles := recentFiles + [path];
      } else {
        recentFiles := RemoveFirst(recentFiles, path);
        recentFiles := recentFiles + [path];
      }
    }

    /** `CountMessages`: zero exactly for a level with no counter. */
    function CountMessages(level: int): (r: int)
      reads this
      requires Valid()
      ensures r >= 0
      ensures r == 0 <==> level !in byLevel
    {
      if level in byLevel then byLevel[level] else 0
    }

    /** `AddMessage`'s counting: one more message of `level`, every other counter unchanged. */
    method AddMessage(level: int)
      requires Valid()
      modifies this
      ensures Valid() && byLevel == Incremented(old(byLevel), level)
      ensures forall other | other != level :: CountMessages(other) == old(CountMessages(other))
      ensures CountMessages(level) == old(CountMessages(level)) + 1
      ensures minFilter == old(minFilter) && maxFilter == old(maxFilter) && pageSize == old(pageSize)
      ensures recentFiles == old(recentFiles) && textFilter == old(textFilter) && useRegexp == old(useRegexp)
    {
      if level in byLevel {
        byLevel := byLevel[level := byLevel[level] + 1];
      } else {
        byLevel := byLevel[level := 1];
      }
    }

    /**
     * `DetectLevel`: the default for a blank line, else the index of the
     * first marker the line matches, else the default.
     */
    method DetectLevel(line: string, defaultLevel: int) returns (r: int)
      ensures IsBlank(line) ==> r == defaultLevel
      ensures !IsBlank(line) && (exists i | 0 <= i < |markers| :: markers[i](line)) ==>
                0 <= r < |markers| && markers[r](line) && forall j | 0 <= j < r :: !markers[j](line)
      ensures (forall i | 0 <= i < |markers| :: !markers[i](line)) ==> r == defaultLevel
    {
      if IsBlank(line) {
        return defaultLevel;
      }
      for i := 0 to |markers|
        invariant forall j | 0 <= j < i :: !markers[j](line)
      {
        if markers[i](line) {
          return i;
        }
      }
      return defaultLevel;
    }
  }
}
