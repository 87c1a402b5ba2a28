/**
 * The server proper (`class Nexd`, nexd.rb:32-117): the docroot check made
 * before serving, and one turn of the accept loop in `main` — read the
 * request line, strip its terminator, join it onto the docroot, classify the
 * result, write one response and close the connection.
 *
 * The socket calls become values: what `gets` returned is an input
 * (`None` for Ruby's `nil`), and what the loop does to the client is a
 * sequence of events.
 */
module Nexd {
  import opened Wrappers
  import opened Text
  import opened FileSystem
  import opened Listing

  /** What the joined path turned out to be. */
  datatype Target =
    | Directory(path: string, entries: seq<string>)
    | RegularFile(path: string, contents: string)
    | Missing(request: string)

  /**
   * Classifies the request (nexd.rb:99-109): the docroot joined with the
   * request verbatim is checked first for a directory, then for a regular
   * file; anything else, absent or not, is missing.
   */
  function Resolve(fs: FileSystem, docroot: string, request: string): (t: Target)
    ensures var path := JoinPath(docroot, request);
      && (t.Directory? <==> IsDirectory(fs, path))
      && (t.RegularFile? <==> !IsDirectory(fs, path) && IsRegularFile(fs, path))
      && (t.Missing? <==> !IsDirectory(fs, path) && !IsRegularFile(fs, path))
      && (t.Directory? ==> t.path == path && fs[path] == Dir(t.entries))
      && (t.RegularFile? ==> t.path == path && fs[path] == File(t.contents))
      && (t.Missing? ==> t.request == request)
  {
    var path := JoinPath(docroot, request);
    if IsDirectory(fs, path) then Directory(path, fs[path].entries)
    else if !IsRegularFile(fs, path) then Missing(request)
    else RegularFile(path, fs[path].contents)
  }

  const NoSuchResource := "Sorry, no such resource: "

  /** The bytes written back for a classified request. */
  function Dispatch(fs: FileSystem, t: Target): string
  {
    match t
    case Directory(path, entries) => DirListing(fs, path, entries)
    case Missing(request) => NoSuchResource + request + Newline
    case RegularFile(_, contents) => contents
  }

  /** The whole answer to an already chomped request line. */
  function Respond(fs: FileSystem, docroot: string, request: string): (response: string)
    ensures var path := JoinPath(docroot, request);
      && (IsDirectory(fs, path) ==> response == DirListing(fs, path, fs[path].entries))
      && (IsRegularFile(fs, path) ==> response == fs[path].contents)
      && (!IsDirectory(fs, path) && !IsRegularFile(fs, path) ==>
            response == NoSuchResource + request + Newline)
  {
    Dispatch(fs, Resolve(fs, docroot, request))
  }

  /**
   * The "no such resource" answer quotes the line as received, less at most
   * one trailing terminator (nexd.rb:96, nexd.rb:106).
   */
  lemma MissingResponseQuotesRequestLine(fs: FileSystem, docroot: string, line: string)
    requires var path := JoinPath(docroot, Chomp(line));
      !IsDirectory(fs, path) && !IsRegularFile(fs, path)
    ensures var r := Respond(fs, docroot, Chomp(line));
      && |NoSuchResource| < |r|
      && r[..|NoSuchResource|] == NoSuchResource
      && r[|r| - 1] == '\n'
      && var quoted := r[|NoSuchResource|..|r| - 1];
         && |quoted| <= |line| && line[..|quoted|] == quoted
         && (quoted == line || IsLineTerminator(line[|quoted|..]))
  {
    var r := Respond(fs, docroot, Chomp(line));
    assert r[|NoSuchResource|..|r| - 1] == Chomp(line);
  }

  /** What happens to the client socket. */
  datatype Event = Accept | Write(data: string) | Close

  function Count(events: seq<Event>, e: Event): nat
    decreases |events|
  {
    if |events| == 0 then 0 else (if events[0] == e then 1 else 0) + Count(events[1..], e)
  }

  /** The data written, in order. */
  function Writes(events: seq<Event>): seq<string>
    decreases |events|
  {
    if |events| == 0 then []
    else (if events[0].Write? then [events[0].data] else []) + Writes(events[1..])
  }

  /**
   * The connection life cycle, replayed from the state where a client is
   * (`open`) or is not connected: accept only with no client connected,
   * write and close only with one, and no client left connected at the end.
   */
  predicate Lifecycle(events: seq<Event>, open: bool)
    decreases |events|
  {
    if |events| == 0 then !open
    else match events[0]
      case Accept => !open && Lifecycle(events[1..], true)
      case Write(_) => open && Lifecycle(events[1..], true)
      case Close => open && Lifecycle(events[1..], false)
  }

  /**
   * One turn of the `loop do` in `main` (nexd.rb:85-113) given what `gets`
   * returned. Without a line the client is closed and nothing is written;
   * with one, exactly one response is written, then the client is closed.
   */
  function Iteration(fs: FileSystem, docroot: string, received: Option<string>): (events: seq<Event>)
    ensures |events| >= 2 && events[0] == Accept && events[|events| - 1] == Close
    ensures Lifecycle(events, false)
    ensures Count(events, Accept) == 1 && Count(events, Close) == 1
    ensures received.None? ==> Writes(events) == []
    ensures received.Some? ==> Writes(events) == [Respond(fs, docroot, Chomp(received.value))]
  {
    match received
    case None => [Accept, Close]
    case Some(line) =>
      var response := Respond(fs, docroot, Chomp(line));
      SessionWithResponse(response);
      [Accept, Write(response), Close]
  }

  /** The events of a turn that writes one response. */
  lemma SessionWithResponse(response: string)
    ensures var events := [Accept, Write(response), Close];
      && Lifecycle(events, false)
      && Count(events, Accept) == 1 && Count(events, Close) == 1
      && Writes(events) == [response]
  {
    var events := [Accept, Write(response), Close];
    assert events[1..] == [Write(response), Close];
    assert events[2..] == events[1..][1..] == [Close];
    assert events[2..][1..] == [];
    assert Count(events[2..], Close) == 1 && Count(events[2..], Accept) == 0;
    assert Count(events[1..], Close) == 1 && Count(events[1..], Accept) == 0;
    assert Writes(events[2..]) == [];
    assert Writes(events[1..]) == [response];
    assert Lifecycle(events[2..], true);
    assert Lifecycle(events[1..], true);
  }

  /** The number of clients connected after `events`, counting one already open when `open`. */
  function OpenConnections(events: seq<Event>, open: bool): int
  {
    (if open then 1 else 0) + Count(events, Accept) - Count(events, Close)
  }

  lemma {:induction false} LifecycleCounts(events: seq<Event>, open: bool)
    requires Lifecycle(events, open)
    ensures OpenConnections(events, open) == 0
    ensures forall k | 0 <= k <= |events| :: 0 <= OpenConnections(events[..k], open) <= 1
    decreases |events|
  {
    if |events| > 0 {
      var next := events[0].Accept? || (events[0].Write? && open);
      LifecycleCounts(events[1..], next);
      forall k | 0 <= k <= |events|
        ensures 0 <= OpenConnections(events[..k], open) <= 1
      {
        if k > 0 {
          assert events[..k][1..] == events[1..][..k - 1];
        }
      }
    }
  }

  /** Every accepted client is closed exactly once, and no two are ever connected at the same time. */
  lemma OneClientAtATime(events: seq<Event>)
    requires Lifecycle(events, false)
    ensures Count(events, Accept) == Count(events, Close)
    ensures forall k | 0 <= k <= |events| ::
      Count(events[..k], Close) <= Count(events[..k], Accept) <= Count(events[..k], Close) + 1
  {
    LifecycleCounts(events, false);
    forall k | 0 <= k <= |events|
      ensures Count(events[..k], Close) <= Count(events[..k], Accept) <= Count(events[..k], Close) + 1
    {
      assert 0 <= OpenConnections(events[..k], false) <= 1;
    }
  }

  function Flatten(sessions: seq<seq<Event>>): seq<Event>
    decreases |sessions|
  {
    if |sessions| == 0 then [] else sessions[0] + Flatten(sessions[1..])
  }

  lemma {:induction false} LifecycleAppend(a: seq<Event>, b: seq<Event>, open: bool)
    requires Lifecycle(a, open) && Lifecycle(b, false)
    ensures Lifecycle(a + b, open)
    decreases |a|
  {
    if |a| == 0 {
      assert a + b == b;
    } else {
      assert (a + b)[1..] == a[1..] + b;
      LifecycleAppend(a[1..], b, a[0].Accept? || (a[0].Write? && open));
    }
  }

  lemma {:induction false} FlattenLifecycle(sessions: seq<seq<Event>>)
    requires forall i | 0 <= i < |sessions| :: Lifecycle(sessions[i], false)
    ensures Lifecycle(Flatten(sessions), false)
    decreases |sessions|
  {
    if |sessions| > 0 {
      FlattenLifecycle(sessions[1..]);
      LifecycleAppend(sessions[0], Flatten(sessions[1..]), false);
    }
  }

  /** `preflight` (nexd.rb:61-74): `nil` when the docroot is a directory, 1 otherwise. */
  function Preflight(fs: FileSystem, docroot: string): (rv: Option<int>)
    ensures rv.None? <==> IsDirectory(fs, docroot)
    ensures rv.Some? ==> rv.value == 1
  {
    if !IsDirectory(fs, docroot) then Some(1) else None
  }

  /** What `main` does with a docroot and a run of connections. */
  datatype Outcome =
    | Exited(status: int)
    | Serving(sessions: seq<seq<Event>>)

  /**
   * `main` (nexd.rb:78-116) over finitely many connections and an unchanging
   * file system: the preflight result is returned before any client is
   * accepted; otherwise each connection gets one turn of the loop, in order.
   */
  function Run(fs: FileSystem, docroot: string, connections: seq<Option<string>>): (o: Outcome)
    ensures o.Exited? <==> !IsDirectory(fs, docroot)
    ensures o.Exited? ==> o.status == 1
    ensures o.Serving? ==> |o.sessions| == |connections|
    ensures o.Serving? ==> forall i | 0 <= i < |connections| ::
      o.sessions[i] == Iteration(fs, docroot, connections[i])
    ensures o.Serving? ==> Lifecycle(Flatten(o.sessions), false)
    ensures o.Serving? ==> forall i, j | 0 <= i < |connections| && 0 <= j < |connections| ::
      connections[i] == connections[j] ==> o.sessions[i] == o.sessions[j]
  {
    var rv := Preflight(fs, docroot);
    if rv.Some? then Exited(rv.value)
    else
      var sessions := seq(|connections|, i requires 0 <= i < |connections| =>
        Iteration(fs, docroot, connections[i]));
      FlattenLifecycle(sessions);
      Serving(sessions)
  }
}
