# nexd — a verified model of the Nightfall Express server's request loop

`nexd.rb` is a tiny server for the Nightfall Express protocol: a client
connects, sends one line naming a resource, and gets back the file's bytes, a
directory listing, or `Sorry, no such resource: <line>\n`, after which the
connection is closed. This project models, in Dafny, the part of `Nexd` that
decides what is sent:

- `dirlisting`: one `=> name` line per entry `Dir.entries` reports, except
  `.` (but including `..`), with a `/` after directories; the lines sorted,
  joined with `\n`, plus a final `\n` (modules `Listing`, `Order`, `Text`);
- `preflight`: `nil` when the docroot is a directory, `1` otherwise;
- one turn of the accept loop in `main`: `chomp!` the request line, join it
  onto the docroot with `File.join` (no normalisation, so `..` can leave the
  docroot), classify the path (directory first, then regular file, anything
  else missing), write exactly one answer, close the client; with no line at
  all, just close (module `Nexd`);
- `main` itself over a finite run of connections against an unchanging file
  system: the preflight result is returned before anyone is served,
  otherwise every connection gets one loop turn, in order.

The file system is an immutable map from path strings to
`Dir(entries) | File(contents) | Other`. It is keyed by the exact spelling of
a path: whether `a/b/..` and `a` are the same node is up to the map. Socket
I/O becomes data: what `gets` returned is an `Option<string>` input, and what
the loop does to the client is a sequence of `Accept`, `Write(data)` and
`Close` events. Strings stand for Ruby's byte strings, one character per
byte, so comparing characters compares bytes; entry names and request lines
need not be valid UTF-8.

Files: `wrappers.dfy` (Option), `order.dfy` (string order, insertion sort,
uniqueness of the sorted arrangement), `text.dfy` (`chomp`, `Array#join`),
`seqs.dfy` (mapping over a sequence commutes with rearranging it),
`filesystem.dfy` (nodes, `File.directory?`, `File.file?`, `File.join`),
`listing.dfy` (`dirlisting`), `nexd.dfy` (classification, responses, the
loop, `preflight`, `main`), `scenarios.dfy` (worked requests).

## Model

| member | source | states |
|---|---|---|
| Order.LessEqIsLexicographic | nexd.rb:52 | The comparison the sort uses holds exactly when one string is a prefix of the other or, at the first position where they differ, the first has the smaller character. |
| Order.Sort | nexd.rb:52 | The sorted lines are in ascending order and are a permutation of the input lines. |
| Order.SortedPermutationIsUnique | nexd.rb:52 | Two ascending arrangements of the same lines are identical, so the outcome of `sort` does not depend on the algorithm or on the input order. |
| Order.SortIsAnySortedPermutation | nexd.rb:52 | Any ascending permutation of the lines equals the model's sorted result. |
| Text.Chomp | nexd.rb:96 | `chomp!` leaves a prefix of the line; what it removes is nothing or exactly one of `\n`, `\r\n`, `\r`; it removes something iff the line ends in `\n` or `\r`; a `\r\n` pair goes as a unit. |
| Text.ChompRemovesOneTerminator | nexd.rb:96 | A line sent with one terminator is recovered exactly by `chomp!` (a bare `\n` only when no `\r` precedes it). |
| Text.JoinThenSeparatorTerminatesAll | nexd.rb:52 | Joining a non-empty list with a separator and appending one more separator terminates every element, the last one included. |
| FileSystem.JoinPath | nexd.rb:99 | The joined path starts with the docroot minus its trailing separators and ends with the request verbatim, with only separators between. Exactly one separator is added when neither side has one. Nothing is added when the docroot already ends in one. When the request starts with a separator, the docroot's trailing separators are dropped. Nothing in the request is normalised. |
| Listing.ListedEntries | nexd.rb:46-47 | Every `.` is dropped and every other entry, `..` included, is kept as often as it was enumerated; the count lost is exactly the number of `.` entries. |
| Listing.ParentEntryIsListed | nexd.rb:46-47 | `..`, whenever the directory enumerates it, stays among the listed entries and gets a line in the listing. |
| Listing.EntryLine | nexd.rb:48-49 | A line is `=> ` followed by the entry name, with a `/` appended exactly when the joined entry path is a directory; for names not already ending in `/`, the line ends in `/` iff the entry is a directory. |
| Listing.ListingLinesAreSortedEntryLines | nexd.rb:46-52 | The listing's lines are ascending, are a permutation of the formatted non-`.` entries, and number the entries less the `.` entries. |
| Listing.ListingLinesMembers | nexd.rb:46-50 | A line appears iff it is the formatted line of some enumerated entry other than `.`. |
| Listing.DirListingTerminatesEveryLine | nexd.rb:52 | The listing is every line followed by `\n`; with no lines it is exactly `\n`; it always ends in `\n`. |
| Listing.DirListingIgnoresEnumerationOrder | nexd.rb:46-52 | Two enumerations of the same entries in any order give the same listing. |
| Listing.ListingLinesAreTheSortedArrangement | nexd.rb:52 | Whichever ascending arrangement of the entry lines one takes, it is the listing's. |
| Nexd.Resolve | nexd.rb:99-109 | The request is classified as a directory iff the verbatim joined path is one, as a regular file iff it is not a directory but a regular file, and as missing otherwise, keeping the request line for the message. |
| Nexd.Respond | nexd.rb:99-111 | A directory gets its listing, a regular file its unmodified contents, anything else `Sorry, no such resource: ` plus the request plus `\n`. |
| Nexd.MissingResponseQuotesRequestLine | nexd.rb:96-106 | The apology quotes the received line with at most one trailing terminator removed and nothing else changed. |
| Nexd.Iteration | nexd.rb:85-113 | Each loop turn accepts one client and closes it exactly once, last; without a request line nothing is written; with one, exactly one response, for the chomped line, is written. |
| Nexd.OneClientAtATime | nexd.rb:76-113 | In any event sequence that follows the connection life cycle, every accepted client is closed, and at every point at most one client is connected. |
| Nexd.Preflight | nexd.rb:61-74 | The result is `nil` exactly when the docroot is a directory, and 1 otherwise. |
| Nexd.Run | nexd.rb:78-116 | `main` returns 1 without serving anyone exactly when the docroot is not a directory; otherwise each connection gets one loop turn in order, the whole run follows the one-client-at-a-time life cycle, and equal request lines get identical sessions. |
| Scenarios.FileRequest | nexd.rb:96-112 | `hello.txt\n` is answered with the file's bytes `hi\n`, then the client is closed. |
| Scenarios.MissingRequest | nexd.rb:105-108 | `nope.txt\r\n` for an absent file is answered `Sorry, no such resource: nope.txt\n`. |
| Scenarios.SilentClient | nexd.rb:88-94 | A client that sends nothing is accepted and closed with nothing written. |
| Scenarios.DirectoryRequest | nexd.rb:101-104 | A directory holding only `.` and `..` is listed as `=> ../\n`. |
| Scenarios.SubdirectoryListing | nexd.rb:44-53 | A directory enumerating `b`, `.`, `a.txt`, `..` (with `b` a directory) is listed as `=> ../\n=> a.txt\n=> b/\n`: `.` dropped, `..` kept, lines sorted. |
| Scenarios.TraversalRequest | nexd.rb:99 | `../secret.txt` returns a file that lies outside the docroot. |
| Scenarios.NoDocroot | nexd.rb:79-80 | With a missing docroot `main` returns 1 before accepting anyone. |

## Behaviour of note

- A listing keeps `..`: `Dir.entries` reports it and only `.` is skipped
  (nexd.rb:47; `Listing.ParentEntryIsListed`). Its line is `=> ../` when the
  joined path `dir/..` is a directory. Lines compare byte by byte, so `=> ../`
  sorts before names whose first byte is above `.`, such as letters and
  digits (`Scenarios.SubdirectoryListing`), and after names such as `-a` or
  `...`.
- The loop has no `rescue` (nexd.rb:85-113): an exception from `Dir.entries`
  or `File.read` leaves `main` and ends the process, without closing the
  client. The model's file system never fails a read, so this path is not
  modelled.
- `gets` returns a final line that lacks a newline as it is, and it is served
  like any other; only a read of nothing yields `nil`. The model takes
  whatever `gets` returned as its input.

## Left out

- Socket I/O (`TCPServer.new`, `accept`, `gets`, `write`, `close`): replaced by
  the `Option<string>` input and the event sequence.
- Socket errors: `@client.gets` (nexd.rb:88) can raise, for instance when
  the client resets the connection, and `@client.write` (nexd.rb:102, 106,
  111) can raise when the client has gone before the answer is written. With
  no `rescue` in the loop, `@client.close` is then skipped and the exception
  ends `main`. The model's socket calls never fail, so `Nexd.Iteration`'s
  "closed exactly once" and `Nexd.OneClientAtATime` hold only for runs in
  which no socket call raises.
- The endless `loop`: `Run` covers any finite run of connections; the
  unreachable `return 0` after the loop is not modelled.
- The SIGINT `trap` and the `client` accessor, which only serve signal
  handling.
- Command-line parsing, `DEFAULT_PORT` and `DEFAULT_DOCROOT` with
  `File.expand_path`: glue around library code.
- Console output: `log` (it reads the clock), the startup lines, and the
  `FATAL: no such directory` line `preflight` writes to standard error.
- Exceptions from the file system (permissions, files vanishing between the
  check and the read): the map never fails, and Ruby's behaviour there is
  library code.
- FileSystem.JoinPath: joins any two strings and never fails. Ruby's
  `File.join` (nexd.rb:49, nexd.rb:99) raises `ArgumentError` for a string
  holding a NUL byte. It raises `Encoding::CompatibilityError` when both
  sides hold non-ASCII bytes in incompatible encodings. That happens when a
  request line read from the socket (raw bytes) meets a UTF-8 docroot or a
  UTF-8 entry name that are also non-ASCII: a non-ASCII request against a
  non-ASCII docroot, or a non-ASCII directory request whose directory holds
  a non-ASCII name. Nothing in nexd.rb:85-113 rescues these, so `main` ends
  without closing the client. Strings here carry no encoding tag, so the
  model cannot tell those cases apart.
- Symbolic links and path resolution: the map is already keyed by the exact
  path strings `File.join` produces.
