/**
 * Worked examples of single requests against a small document root at
 * "/srv/docroot".
 */
module Scenarios {
  import opened Wrappers
  import opened Order
  import opened Text
  import opened FileSystem
  import opened Listing
  import opened Nexd

  const Root := "/srv/docroot"

  /** A docroot holding "hello.txt" and an empty subdirectory "empty", and a
      file "secret.txt" beside (not inside) the docroot. */
  function Site(): FileSystem
  {
    map[
      Root := Dir([".", "..", "hello.txt", "empty"]),
      "/srv/docroot/hello.txt" := File("hi\n"),
      "/srv/docroot/empty" := Dir([".", ".."]),
      "/srv/docroot/empty/.." := Dir([".", "..", "hello.txt", "empty"]),
      "/srv/docroot/../secret.txt" := File("top secret\n")
    ]
  }

  /** A file's bytes come back untouched, the request's "\n" stripped first. */
  lemma FileRequest()
    ensures Iteration(Site(), Root, Some("hello.txt\n")) == [Accept, Write("hi\n"), Close]
  {
    ChompRemovesOneTerminator("hello.txt", "\n");
    assert "hello.txt" + "\n" == "hello.txt\n";
    assert JoinPath(Root, "hello.txt") == "/srv/docroot/hello.txt";
    assert IsRegularFile(Site(), "/srv/docroot/hello.txt");
    assert Respond(Site(), Root, "hello.txt") == "hi\n";
  }

  lemma NopeResponse()
    ensures Respond(Site(), Root, "nope.txt") == "Sorry, no such resource: nope.txt\n"
  {
    var path := JoinPath(Root, "nope.txt");
    assert path == "/srv/docroot/nope.txt";
    assert path !in Site();
    assert NoSuchResource + "nope.txt" + Newline == "Sorry, no such resource: nope.txt\n";
  }

  /** An absent resource gets the apology quoting the request, "\r\n" stripped. */
  lemma MissingRequest()
    ensures Iteration(Site(), Root, Some("nope.txt\r\n"))
      == [Accept, Write("Sorry, no such resource: nope.txt\n"), Close]
  {
    ChompRemovesOneTerminator("nope.txt", "\r\n");
    assert "nope.txt" + "\r\n" == "nope.txt\r\n";
    NopeResponse();
  }

  /** A client that sends nothing is closed without an answer. */
  lemma SilentClient()
    ensures Iteration(Site(), Root, None) == [Accept, Close]
  {
  }

  const Empty := "/srv/docroot/empty"

  lemma EmptyParentLine()
    ensures EntryLine(Site(), Empty, "..") == "=> ../"
  {
    assert JoinPath(Empty, "..") == "/srv/docroot/empty/..";
    assert IsDirectory(Site(), "/srv/docroot/empty/..");
  }

  lemma EmptyDirectoryLines()
    ensures ListingLines(Site(), Empty, [".", ".."]) == ["=> ../"]
  {
    assert ListedEntries([".", ".."]) == [".."] by {
      assert [".", ".."][1..] == [".."] && [".."][1..] == [];
    }
    EmptyParentLine();
    assert EntryLines(Site(), Empty, [".."]) == ["=> ../"] by {
      assert [".."][1..] == [];
    }
  }

  /** An otherwise empty directory is listed as its parent alone: "." is
      dropped, ".." is kept and marked as a directory. */
  lemma DirectoryRequest()
    ensures Respond(Site(), Root, "empty") == "=> ../\n"
  {
    assert JoinPath(Root, "empty") == Empty;
    assert IsDirectory(Site(), Empty) && Site()[Empty].entries == [".", ".."];
    EmptyDirectoryLines();
  }

  /** ".." is not normalised away: the request escapes the docroot. */
  lemma TraversalRequest()
    ensures Respond(Site(), Root, "../secret.txt") == "top secret\n"
  {
    assert JoinPath(Root, "../secret.txt") == "/srv/docroot/../secret.txt";
  }

  /** Without a docroot directory, `main` returns 1 and accepts nobody. */
  lemma NoDocroot()
    ensures Run(Site(), "/srv/missing", [Some("hello.txt\n")]) == Exited(1)
  {
    assert "/srv/missing" !in Site();
  }

  const Sub := "/srv/docroot/sub"

  /** A docroot subdirectory that enumerates a subdirectory "b", a file
      "a.txt", "." and "..", in no particular order. */
  function Nested(): FileSystem
  {
    map[
      Root := Dir([".", "..", "sub"]),
      Sub := Dir(["b", ".", "a.txt", ".."]),
      "/srv/docroot/sub/b" := Dir([".", ".."]),
      "/srv/docroot/sub/a.txt" := File("A\n"),
      "/srv/docroot/sub/.." := Dir([".", "..", "sub"])
    ]
  }

  lemma SubLines()
    ensures EntryLine(Nested(), Sub, "b") == "=> b/"
    ensures EntryLine(Nested(), Sub, "a.txt") == "=> a.txt"
    ensures EntryLine(Nested(), Sub, "..") == "=> ../"
  {
    assert JoinPath(Sub, "b") == "/srv/docroot/sub/b";
    assert JoinPath(Sub, "a.txt") == "/srv/docroot/sub/a.txt";
    assert JoinPath(Sub, "..") == "/srv/docroot/sub/..";
    assert !IsDirectory(Nested(), "/srv/docroot/sub/a.txt");
  }

  lemma SubListedEntries()
    ensures ListedEntries(["b", ".", "a.txt", ".."]) == ["b", "a.txt", ".."]
  {
    var e := ["b", ".", "a.txt", ".."];
    assert e[1..] == [".", "a.txt", ".."];
    assert e[1..][1..] == ["a.txt", ".."];
    assert e[1..][1..][1..] == [".."];
    assert e[1..][1..][1..][1..] == [];
  }

  lemma SubEntryLines()
    ensures EntryLines(Nested(), Sub, ["b", "a.txt", ".."]) == ["=> b/", "=> a.txt", "=> ../"]
  {
    var names := ["b", "a.txt", ".."];
    SubLines();
    assert names[1..] == ["a.txt", ".."] && names[1..][1..] == [".."] && names[1..][1..][1..] == [];
  }

  /** After the shared "=> ", '.' sorts before 'a', and 'a' before 'b'. */
  lemma SubLinesAscend()
    ensures Sorted(["=> ../", "=> a.txt", "=> b/"])
  {
    var s := ["=> ../", "=> a.txt", "=> b/"];
    assert LessEq(s[0], s[1]) by {
      assert s[0][3..] == "../" && s[1][3..] == "a.txt";
      assert LessEq(s[0][3..], s[1][3..]);
    }
    assert LessEq(s[0], s[2]) by {
      assert s[0][3..] == "../" && s[2][3..] == "b/";
      assert LessEq(s[0][3..], s[2][3..]);
    }
    assert LessEq(s[1], s[2]) by {
      assert s[1][3..] == "a.txt" && s[2][3..] == "b/";
      assert LessEq(s[1][3..], s[2][3..]);
    }
  }

  /** Pins a concrete listing from its parts, so that no concrete sort is unfolded. */
  lemma ListingFromParts(fs: FileSystem, dir: string, entries: seq<string>, names: seq<string>,
                         lines: seq<string>, sorted: seq<string>)
    requires ListedEntries(entries) == names && EntryLines(fs, dir, names) == lines
    requires Sorted(sorted) && multiset(sorted) == multiset(lines)
    ensures ListingLines(fs, dir, entries) == sorted
  {
    ListingLinesAreTheSortedArrangement(fs, dir, entries, sorted);
  }

  /** The answer to a request naming a directory whose lines are known. */
  lemma DirectoryResponse(fs: FileSystem, docroot: string, request: string, lines: seq<string>)
    requires var path := JoinPath(docroot, request);
      IsDirectory(fs, path) && ListingLines(fs, path, fs[path].entries) == lines
    ensures Respond(fs, docroot, request) == JoinWith(lines, Newline) + Newline
  {
  }

  lemma SubLinesPermuted()
    ensures multiset(["=> ../", "=> a.txt", "=> b/"]) == multiset(["=> b/", "=> a.txt", "=> ../"])
  {
  }

  lemma SubJoined()
    ensures JoinWith(["=> ../", "=> a.txt", "=> b/"], Newline) + Newline == "=> ../\n=> a.txt\n=> b/\n"
  {
    var lines := ["=> ../", "=> a.txt", "=> b/"];
    assert lines[1..] == ["=> a.txt", "=> b/"] && lines[1..][1..] == ["=> b/"];
  }

  lemma SubListingLines()
    ensures ListingLines(Nested(), Sub, ["b", ".", "a.txt", ".."]) == ["=> ../", "=> a.txt", "=> b/"]
  {
    SubListedEntries();
    SubEntryLines();
    SubLinesAscend();
    SubLinesPermuted();
    ListingFromParts(Nested(), Sub, ["b", ".", "a.txt", ".."], ["b", "a.txt", ".."],
      ["=> b/", "=> a.txt", "=> ../"], ["=> ../", "=> a.txt", "=> b/"]);
  }

  /** A listing of several names is sorted: ".." first, then the file, then
      the subdirectory with its "/". */
  lemma SubdirectoryListing()
    ensures Respond(Nested(), Root, "sub") == "=> ../\n=> a.txt\n=> b/\n"
  {
    var lines := ["=> ../", "=> a.txt", "=> b/"];
    assert JoinPath(Root, "sub") == Sub;
    assert IsDirectory(Nested(), Sub) && Nested()[Sub].entries == ["b", ".", "a.txt", ".."];
    SubListingLines();
    DirectoryResponse(Nested(), Root, "sub", lines);
    SubJoined();
  }
}
