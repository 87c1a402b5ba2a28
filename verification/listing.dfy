/**
 * `Nexd#dirlisting` (nexd.rb:44-53): one line "=> name" per enumerated entry
 * except ".", a "/" after the names of directories, the lines sorted, joined
 * with "\n", and one more "\n" at the end.
 */
module Listing {
  import opened Order
  import opened Text
  import opened FileSystem
  import opened Seqs

  /** The self-reference entry, the only one the listing skips. */
  const SelfEntry := "."
  /** The parent entry, which the listing keeps. */
  const ParentEntry := ".."
  const Arrow := "=> "
  const Newline := "\n"

  /** The enumerated entries with every "." dropped and everything else kept
      in enumeration order. */
  function ListedEntries(entries: seq<string>): (names: seq<string>)
    ensures multiset(names) == multiset(entries)[SelfEntry := 0]
    ensures |names| + multiset(entries)[SelfEntry] == |entries|
    decreases |entries|
  {
    if |entries| == 0 then []
    else
      assert entries == [entries[0]] + entries[1..];
      (if entries[0] == SelfEntry then [] else [entries[0]]) + ListedEntries(entries[1..])
  }

  /** The line for one entry of directory `dir`. */
  function EntryLine(fs: FileSystem, dir: string, name: string): (line: string)
    ensures |Arrow| <= |line| && line[..|Arrow|] == Arrow
    ensures !IsDirectory(fs, JoinPath(dir, name)) ==> line == Arrow + name
    ensures IsDirectory(fs, JoinPath(dir, name)) ==> line == Arrow + name + [Separator]
    ensures !EndsWithSeparator(name) ==> (EndsWithSeparator(line) <==> IsDirectory(fs, JoinPath(dir, name)))
  {
    var item := Arrow + name;
    if IsDirectory(fs, JoinPath(dir, name)) then item + [Separator] else item
  }

  /** `EntryLine` for the entries of one directory. */
  function LineOf(fs: FileSystem, dir: string): string -> string
  {
    name => EntryLine(fs, dir, name)
  }

  /** The unsorted lines, one per name, in the names' order. */
  function EntryLines(fs: FileSystem, dir: string, names: seq<string>): seq<string>
  {
    Map(LineOf(fs, dir), names)
  }

  /** The listing's lines before they are joined. */
  function ListingLines(fs: FileSystem, dir: string, entries: seq<string>): seq<string>
  {
    Sort(EntryLines(fs, dir, ListedEntries(entries)))
  }

  /** `dirlisting(dir)` when `Dir.entries(dir)` enumerates `entries`. */
  function DirListing(fs: FileSystem, dir: string, entries: seq<string>): string
  {
    JoinWith(ListingLines(fs, dir, entries), Newline) + Newline
  }

  /** The lines are ascending, and are the formatted non-"." entries, each as
      often as it was enumerated: one line per entry, none for ".". */
  lemma ListingLinesAreSortedEntryLines(fs: FileSystem, dir: string, entries: seq<string>)
    ensures Sorted(ListingLines(fs, dir, entries))
    ensures multiset(ListingLines(fs, dir, entries)) == multiset(EntryLines(fs, dir, ListedEntries(entries)))
    ensures |ListingLines(fs, dir, entries)| == |entries| - multiset(entries)[SelfEntry]
  {
    var lines := EntryLines(fs, dir, ListedEntries(entries));
    assert |Sort(lines)| == |multiset(Sort(lines))| == |multiset(lines)| == |lines|;
  }

  lemma ListedEntriesMembers(entries: seq<string>, name: string)
    ensures name in ListedEntries(entries) <==> name in entries && name != SelfEntry
  {
    assert name in ListedEntries(entries) <==> name in multiset(ListedEntries(entries));
    assert name in entries <==> name in multiset(entries);
  }

  lemma SortKeepsMembers(lines: seq<string>, line: string)
    ensures line in Sort(lines) <==> line in lines
  {
    assert multiset(Sort(lines)) == multiset(lines);
    assert line in multiset(Sort(lines)) <==> line in multiset(lines);
  }

  /** Every line is the line of some enumerated entry other than ".", and
      every enumerated entry other than "." (".." included) has its line. */
  lemma ListingLinesMembers(fs: FileSystem, dir: string, entries: seq<string>, line: string)
    ensures line in ListingLines(fs, dir, entries) <==>
      exists name :: name in entries && name != SelfEntry && line == EntryLine(fs, dir, name)
  {
    var names := ListedEntries(entries);
    SortKeepsMembers(EntryLines(fs, dir, names), line);
    MapMembers(LineOf(fs, dir), names, line);
    forall name ensures name in names <==> name in entries && name != SelfEntry {
      ListedEntriesMembers(entries, name);
    }
  }

  /** Only "." is skipped: an enumerated ".." is listed and has its line. */
  lemma ParentEntryIsListed(fs: FileSystem, dir: string, entries: seq<string>)
    requires ParentEntry in entries
    ensures ParentEntry in ListedEntries(entries)
    ensures EntryLine(fs, dir, ParentEntry) in ListingLines(fs, dir, entries)
  {
    ListedEntriesMembers(entries, ParentEntry);
    ListingLinesMembers(fs, dir, entries, EntryLine(fs, dir, ParentEntry));
  }

  /** The listing terminates every line with "\n"; with no lines left it is a lone "\n". */
  lemma DirListingTerminatesEveryLine(fs: FileSystem, dir: string, entries: seq<string>)
    ensures var lines := ListingLines(fs, dir, entries);
      && (|lines| == 0 ==> DirListing(fs, dir, entries) == Newline)
      && (|lines| > 0 ==> DirListing(fs, dir, entries) == Terminated(lines, Newline))
    ensures |DirListing(fs, dir, entries)| > 0
    ensures DirListing(fs, dir, entries)[|DirListing(fs, dir, entries)| - 1] == '\n'
  {
    var lines := ListingLines(fs, dir, entries);
    if |lines| > 0 {
      JoinThenSeparatorTerminatesAll(lines, Newline);
    }
  }

  /** The order in which the system enumerates a directory does not matter. */
  lemma DirListingIgnoresEnumerationOrder(fs: FileSystem, dir: string, a: seq<string>, b: seq<string>)
    requires multiset(a) == multiset(b)
    ensures DirListing(fs, dir, a) == DirListing(fs, dir, b)
  {
    MapPermutation(LineOf(fs, dir), ListedEntries(a), ListedEntries(b));
    SortedPermutationIsUnique(ListingLines(fs, dir, a), ListingLines(fs, dir, b));
  }

  /** Ruby's `Array#sort` may use any algorithm: every ascending arrangement
      of the entry lines is the one the listing uses. */
  lemma ListingLinesAreTheSortedArrangement(fs: FileSystem, dir: string, entries: seq<string>, sorted: seq<string>)
    requires Sorted(sorted)
    requires multiset(sorted) == multiset(EntryLines(fs, dir, ListedEntries(entries)))
    ensures sorted == ListingLines(fs, dir, entries)
  {
    SortIsAnySortedPermutation(EntryLines(fs, dir, ListedEntries(entries)), sorted);
  }
}
