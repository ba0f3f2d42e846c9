/**
 * The track backend of server/index.js: the tracks directory, the undo history of
 * every track (`fileHistory`), the names whose next watcher event is an echo of
 * the server's own write (`suppressWatcher`) and the pending debounce timer of
 * every name (`debounceTimers`).
 *
 * Each route and watcher step is first stated as a function from the old state to
 * the new state, the reply and the broadcast events; the `Server` class holds the
 * same state in fields and its methods update them in place, each proved to agree
 * with its step function. File reads and writes act on the `files` map, a write
 * failure is an input, timer handles are supplied by the caller (they are what
 * `setTimeout` returns), and the listing broadcast with the watcher's `tracklist`
 * event is an input as well.
 */
module TrackServer {
  import opened Wrappers
  import opened Text
  import opened TrackNames
  import H = History
  import TL = TrackListing

  /** The events pushed to every SSE client. */
  datatype Event =
    | TrackList(tracks: seq<string>)
    | Change(name: string, content: string, undoDepth: nat)
    | Delete(name: string)

  /** Why a route refuses; the comment gives the HTTP status it answers with. */
  datatype Status =
    | InvalidTrackName  // 400 Invalid track name
    | MissingTrackName  // 400 Missing name
    | MissingContent    // 400 Missing content
    | TrackNotFound     // 404 Track not found
    | TrackExists       // 409 Track already exists
    | NothingToUndo     // 404 Nothing to undo
    | WriteFailed       // 500

  datatype State = State(
    files: map<string, string>,
    history: map<string, H.Stack>,
    suppressed: set<string>,
    timers: map<string, nat>)

  /** A route's outcome: the new state, the reply and the events broadcast. */
  datatype Reply<R> = Reply(next: State, reply: R, events: seq<Event>)

  /** A watcher step's outcome: the new state and the events broadcast. */
  datatype Outcome = Outcome(next: State, events: seq<Event>)

  /**
   * What the backend keeps true: every history stack is non-empty with no two equal
   * neighbours, only track files have timers, and only valid names are suppressed.
   */
  predicate Inv(s: State) {
    && (forall n :: n in s.history ==> |s.history[n]| > 0 && H.NoAdjacentDuplicates(s.history[n]))
    && (forall n :: n in s.timers ==> EndsWith(n, Ext))
    && (forall n :: n in s.suppressed ==> IsValidName(n))
  }

  /** The stack of `name`, empty when it has none. */
  function StackOf(history: map<string, H.Stack>, name: string): H.Stack {
    if name in history then history[name] else []
  }

  /** `getUndoDepth`: how many undos the history of `name` allows. */
  function UndoDepth(s: State, name: string): (d: nat)
    ensures d == if name in s.history && |s.history[name]| > 0 then |s.history[name]| - 1 else 0
  {
    H.Depth(StackOf(s.history, name))
  }

  /** The history after `pushHistory(name, content)`. */
  function PushedHistory(history: map<string, H.Stack>, name: string, content: string): (h: map<string, H.Stack>)
    ensures name in h && |h[name]| > 0 && h[name][|h[name]| - 1] == content
    ensures h[name] == H.Push(StackOf(history, name), content)
    ensures forall n :: n in h && n != name ==> n in history && h[n] == history[n]
    ensures forall n :: n in history ==> n in h
  {
    H.PushTop(StackOf(history, name), content);
    history[name := H.Push(StackOf(history, name), content)]
  }

  /** The history taken at start-up: each listed track that can be read, alone on its stack. */
  function InitialHistory(disk: map<string, string>, tracks: seq<string>): map<string, H.Stack> {
    map n | n in tracks && n in disk :: [disk[n]]
  }

  // ---------------------------------------------------------------------------
  // Routes

  /** `GET /api/track`: the content of a valid, existing track. */
  function GetTrack(s: State, name: string): (r: Result<string, Status>)
    ensures r.Success? <==> IsValidName(name) && name in s.files
    ensures r.Success? ==> r.value == s.files[name]
    ensures !IsValidName(name) ==> r == Failure(InvalidTrackName)
    ensures IsValidName(name) && name !in s.files ==> r == Failure(TrackNotFound)
  {
    if !IsValidName(name) then Failure(InvalidTrackName)
    else if name !in s.files then Failure(TrackNotFound)
    else Success(s.files[name])
  }

  /**
   * `PUT /api/track`: name checked first, then the body's content, then the write.
   * A save neither touches the history nor suppresses the watcher, so the watcher
   * later takes the saved content into the history.
   */
  function SaveStep(s: State, name: string, content: Option<string>, writeOk: bool): (o: Reply<Result<(), Status>>)
    ensures o.reply.Success? <==> IsValidName(name) && content.Some? && writeOk
    ensures !IsValidName(name) ==> o.reply == Failure(InvalidTrackName)
    ensures IsValidName(name) && content.None? ==> o.reply == Failure(MissingContent)
    ensures IsValidName(name) && content.Some? && !writeOk ==> o.reply == Failure(WriteFailed)
    ensures o.reply.Success? ==> o.next.files == s.files[name := content.value]
    ensures !o.reply.Success? ==> o.next == s
    ensures o.next.history == s.history && o.next.suppressed == s.suppressed && o.next.timers == s.timers
    ensures o.events == []
  {
    if !IsValidName(name) then Reply(s, Failure(InvalidTrackName), [])
    else if content.None? then Reply(s, Failure(MissingContent), [])
    else if !writeOk then Reply(s, Failure(WriteFailed), [])
    else Reply(s.(files := s.files[name := content.value]), Success(()), [])
  }

  /**
   * `POST /api/track/create`: normalise and validate the name, refuse an existing
   * track without writing, else write the starter text.
   */
  function CreateStep(s: State, requested: string, writeOk: bool): (o: Reply<Result<string, Status>>)
    ensures requested == "" ==> o.reply == Failure(MissingTrackName)
    ensures CreateTarget(requested) == Failure(InvalidName) ==> o.reply == Failure(InvalidTrackName)
    ensures o.reply.Success? ==>
      && o.reply.value == CreateName(requested)
      && IsValidName(o.reply.value)
      && o.reply.value !in s.files
      && o.next.files == s.files[o.reply.value := StarterText(o.reply.value)]
    ensures o.reply.Success? <==>
      CreateTarget(requested).Success? && CreateName(requested) !in s.files && writeOk
    ensures CreateTarget(requested).Success? && CreateName(requested) in s.files ==>
      o.reply == Failure(TrackExists)
    ensures CreateTarget(requested).Success? && CreateName(requested) !in s.files && !writeOk ==>
      o.reply == Failure(WriteFailed)
    ensures !o.reply.Success? ==> o.next == s
    ensures o.next.history == s.history && o.next.suppressed == s.suppressed && o.next.timers == s.timers
    ensures o.events == []
  {
    match CreateTarget(requested)
    case Failure(MissingName) => Reply(s, Failure(MissingTrackName), [])
    case Failure(InvalidName) => Reply(s, Failure(InvalidTrackName), [])
    case Success(name) =>
      if name in s.files then Reply(s, Failure(TrackExists), [])
      else if !writeOk then Reply(s, Failure(WriteFailed), [])
      else Reply(s.(files := s.files[name := StarterText(name)]), Success(name), [])
  }

  /**
   * `POST /api/track/undo`: with more than one entry on the stack, pop the top and
   * mark the name suppressed, both before the write; then write the new top back.
   * A failed write leaves the pop and the mark in place.
   */
  function UndoStep(s: State, name: string, writeOk: bool): (o: Reply<Result<nat, Status>>)
    ensures !IsValidName(name) ==> o.reply == Failure(InvalidTrackName) && o.next == s
    ensures IsValidName(name) && UndoDepth(s, name) == 0 ==> o.reply == Failure(NothingToUndo) && o.next == s
    ensures IsValidName(name) && UndoDepth(s, name) > 0 ==>
      && name in o.next.history
      && H.Undo(s.history[name]) == Some(o.next.history[name])
      && o.next.history == s.history[name := o.next.history[name]]
      && o.next.suppressed == s.suppressed + {name}
      && o.next.timers == s.timers
      && UndoDepth(o.next, name) == UndoDepth(s, name) - 1
    ensures o.reply.Success? <==> IsValidName(name) && UndoDepth(s, name) > 0 && writeOk
    ensures IsValidName(name) && UndoDepth(s, name) > 0 && !writeOk ==> o.reply == Failure(WriteFailed)
    ensures o.reply.Success? ==>
      var top := o.next.history[name][|o.next.history[name]| - 1];
      && o.next.files == s.files[name := top]
      && o.reply.value == UndoDepth(o.next, name)
      && o.events == [Change(name, top, UndoDepth(o.next, name))]
    ensures !o.reply.Success? ==> o.next.files == s.files && o.events == []
  {
    if !IsValidName(name) then Reply(s, Failure(InvalidTrackName), [])
    else match H.Undo(StackOf(s.history, name))
      case None => Reply(s, Failure(NothingToUndo), [])
      case Some(rest) =>
        var previous := rest[|rest| - 1];
        var popped := s.(history := s.history[name := rest], suppressed := s.suppressed + {name});
        if !writeOk then Reply(popped, Failure(WriteFailed), [])
        else
          var depth := H.Depth(rest);
          Reply(popped.(files := s.files[name := previous]), Success(depth), [Change(name, previous, depth)])
  }

  // ---------------------------------------------------------------------------
  // The debounced watcher

  /**
   * `handleFileChange(name)`: ignored unless the name ends in `.strudel`; otherwise
   * `timer` becomes the one pending timer of the name, and the timer it replaces,
   * if any, is cleared (it is the reply).
   */
  function NotifyStep(s: State, name: string, timer: nat): (o: Reply<Option<nat>>)
    ensures !EndsWith(name, Ext) ==> o.next == s && o.reply == None
    ensures EndsWith(name, Ext) ==>
      && o.next == s.(timers := s.timers[name := timer])
      && o.reply == (if name in s.timers then Some(s.timers[name]) else None)
    ensures o.events == []
  {
    if !EndsWith(name, Ext) then Reply(s, None, [])
    else
      var cleared := if name in s.timers then Some(s.timers[name]) else None;
      Reply(s.(timers := s.timers[name := timer]), cleared, [])
  }

  /** The pending timer of `name` is `timer`; a cleared timer never runs. */
  predicate Pending(s: State, name: string, timer: nat) {
    name in s.timers && s.timers[name] == timer
  }

  /**
   * The debounce timer of `name` runs: its entry is removed; a suppressed name only
   * loses its mark, otherwise a readable file is pushed to the history and
   * announced, an unreadable one is announced deleted and its history dropped.
   * Every branch ends by broadcasting the track listing `tracks`.
   */
  function FireStep(s: State, name: string, timer: nat, tracks: seq<string>): (o: Outcome)
    ensures !Pending(s, name, timer) ==> o == Outcome(s, [])
    ensures Pending(s, name, timer) ==>
      && o.next.timers == s.timers - {name}
      && o.next.files == s.files
      && |o.events| > 0 && o.events[|o.events| - 1] == TrackList(tracks)
    ensures Pending(s, name, timer) && name in s.suppressed ==>
      && o.next.suppressed == s.suppressed - {name}
      && o.next.history == s.history
      && o.events == [TrackList(tracks)]
    ensures Pending(s, name, timer) && name !in s.suppressed && name in s.files ==>
      && o.next.suppressed == s.suppressed
      && o.next.history == s.history[name := H.Push(StackOf(s.history, name), s.files[name])]
      && o.events == [Change(name, s.files[name], UndoDepth(o.next, name)), TrackList(tracks)]
    ensures Pending(s, name, timer) && name !in s.suppressed && name !in s.files ==>
      && o.next.suppressed == s.suppressed
      && o.next.history == s.history - {name}
      && o.events == [Delete(name), TrackList(tracks)]
  {
    if !Pending(s, name, timer) then Outcome(s, [])
    else
      var t := s.(timers := s.timers - {name});
      if name in s.suppressed then
        Outcome(t.(suppressed := s.suppressed - {name}), [TrackList(tracks)])
      else if name in s.files then
        var content := s.files[name];
        var h := PushedHistory(s.history, name, content);
        Outcome(t.(history := h), [Change(name, content, H.Depth(h[name])), TrackList(tracks)])
      else
        Outcome(t.(history := s.history - {name}), [Delete(name), TrackList(tracks)])
  }

  // ---------------------------------------------------------------------------
  // Properties of the steps

  /** Routes that only write files keep the invariant. */
  lemma WritesPreserveInv(s: State, name: string, content: Option<string>, timer: nat, ok: bool)
    requires Inv(s)
    ensures Inv(SaveStep(s, name, content, ok).next)
    ensures Inv(CreateStep(s, name, ok).next)
    ensures Inv(NotifyStep(s, name, timer).next)
  {
  }

  /** Undo keeps the invariant: the popped stack still has an entry and no equal neighbours. */
  lemma UndoPreservesInv(s: State, name: string, ok: bool)
    requires Inv(s)
    ensures Inv(UndoStep(s, name, ok).next)
  {
    var u := UndoStep(s, name, ok).next;
    if IsValidName(name) && UndoDepth(s, name) > 0 {
      var st := s.history[name];
      assert u.history[name] == st[..|st| - 1];
      assert H.NoAdjacentDuplicates(u.history[name]);
    }
  }

  /** The watcher keeps the invariant: a push never creates equal neighbours. */
  lemma FirePreservesInv(s: State, name: string, timer: nat, tracks: seq<string>)
    requires Inv(s)
    ensures Inv(FireStep(s, name, timer, tracks).next)
  {
    if Pending(s, name, timer) && name !in s.suppressed && name in s.files && name in s.history {
      H.PushKeepsNoAdjacentDuplicates(s.history[name], s.files[name]);
    }
  }

  /** One more listed track adds its snapshot unless it is already there or unreadable. */
  lemma InitialHistoryStep(disk: map<string, string>, tracks: seq<string>, i: nat)
    requires i < |tracks|
    ensures var h := InitialHistory(disk, tracks[..i]);
      InitialHistory(disk, tracks[..i + 1]) ==
        if tracks[i] in disk then h[tracks[i] := [disk[tracks[i]]]] else h
  {
    assert tracks[..i + 1] == tracks[..i] + [tracks[i]];
  }

  /** The start-up snapshot satisfies the invariant. */
  lemma InitialInv(disk: map<string, string>, tracks: seq<string>)
    ensures Inv(State(disk, InitialHistory(disk, tracks), {}, map[]))
  {
  }

  /**
   * A saved file reaches the history through the watcher: save, the watcher's
   * notification and its timer leave the saved content on top of the stack and
   * announce it with the new depth.
   */
  lemma SaveIsIngested(s: State, name: string, c: string, timer: nat, tracks: seq<string>)
    requires IsValidName(name) && name !in s.suppressed
    ensures var s1 := SaveStep(s, name, Some(c), true).next;
      var s2 := NotifyStep(s1, name, timer).next;
      var o := FireStep(s2, name, timer, tracks);
      && o.next.history == s.history[name := H.Push(StackOf(s.history, name), c)]
      && o.events == [Change(name, c, UndoDepth(o.next, name)), TrackList(tracks)]
      && o.next.timers == s.timers - {name}
  {
  }

  /**
   * The echo of an undo's own write is swallowed: after a successful undo, the
   * watcher's notification and its timer leave the history as the undo left it,
   * consume the mark and broadcast only the listing.
   */
  lemma UndoEchoSuppressed(s: State, name: string, timer: nat, tracks: seq<string>)
    requires IsValidName(name) && UndoDepth(s, name) > 0 && name !in s.suppressed
    ensures var u := UndoStep(s, name, true).next;
      var o := FireStep(NotifyStep(u, name, timer).next, name, timer, tracks);
      && o.next.history == u.history
      && o.next.files == u.files
      && o.next.suppressed == s.suppressed
      && o.events == [TrackList(tracks)]
  {
  }

  /**
   * Save then undo is a round trip: a save of new content, ingested by the watcher,
   * is undone by one undo, which writes the previous content back and restores the
   * depth.
   */
  lemma SaveThenUndo(s: State, name: string, c: string, timer: nat, tracks: seq<string>)
    requires Inv(s) && IsValidName(name) && name !in s.suppressed
    requires name in s.history && s.history[name][|s.history[name]| - 1] != c
    ensures var s1 := SaveStep(s, name, Some(c), true).next;
      var s3 := FireStep(NotifyStep(s1, name, timer).next, name, timer, tracks).next;
      var u := UndoStep(s3, name, true);
      && UndoDepth(s3, name) == UndoDepth(s, name) + 1
      && u.reply == Success(UndoDepth(s, name))
      && u.next.files[name] == s.history[name][|s.history[name]| - 1]
      && u.next.history == s.history
      && name in u.next.suppressed
  {
    var st := s.history[name];
    var s3 := FireStep(NotifyStep(SaveStep(s, name, Some(c), true).next, name, timer).next, name, timer, tracks).next;
    SaveIsPushed(s, name, c, timer, tracks);
    UndoOfPushed(s, s3, name, c);
  }

  /** A save of content other than the top, once the watcher fires, is one push. */
  lemma SaveIsPushed(s: State, name: string, c: string, timer: nat, tracks: seq<string>)
    requires IsValidName(name) && name !in s.suppressed
    requires name in s.history && |s.history[name]| > 0 && s.history[name][|s.history[name]| - 1] != c
    ensures var s3 := FireStep(NotifyStep(SaveStep(s, name, Some(c), true).next, name, timer).next, name, timer, tracks).next;
      && s3.history == s.history[name := s.history[name] + [c]]
      && s3.suppressed == s.suppressed
  {
    var st := s.history[name];
    var s1 := SaveStep(s, name, Some(c), true).next;
    assert s1.files == s.files[name := c] && s1.history == s.history && s1.suppressed == s.suppressed;
    var s2 := NotifyStep(s1, name, timer).next;
    assert s2 == s1.(timers := s1.timers[name := timer]);
    assert Pending(s2, name, timer) && s2.files[name] == c && StackOf(s2.history, name) == st;
  }

  /** Undo right after a push of `c` restores the stack below it and writes its top back. */
  lemma UndoOfPushed(s: State, s3: State, name: string, c: string)
    requires IsValidName(name) && name in s.history && |s.history[name]| > 0
    requires s3.history == s.history[name := s.history[name] + [c]]
    ensures var u := UndoStep(s3, name, true);
      && UndoDepth(s3, name) == UndoDepth(s, name) + 1
      && u.reply == Success(UndoDepth(s, name))
      && u.next.files[name] == s.history[name][|s.history[name]| - 1]
      && u.next.history == s.history
      && name in u.next.suppressed
  {
    var st := s.history[name];
    assert (st + [c])[..|st|] == st;
    var u := UndoStep(s3, name, true);
    assert u.next.history[name] == st;
    assert u.next.history == s.history;
  }

  /**
   * Debouncing: a second notification replaces the first timer, whose firing then
   * does nothing, and the replacement fires exactly as a single notification would.
   */
  lemma DebounceCoalesces(s: State, name: string, t1: nat, t2: nat, tracks: seq<string>)
    requires EndsWith(name, Ext) && t1 != t2
    ensures var a := NotifyStep(s, name, t1).next;
      var b := NotifyStep(a, name, t2);
      && b.reply == Some(t1)
      && FireStep(b.next, name, t1, tracks) == Outcome(b.next, [])
      && FireStep(b.next, name, t2, tracks) == FireStep(NotifyStep(s, name, t2).next, name, t2, tracks)
  {
    var a := NotifyStep(s, name, t1).next;
    assert a.timers[name := t2] == s.timers[name := t2];
  }

  /** A burst of watcher notifications for `name`, with timers `ts`, in order. */
  function NotifyAll(s: State, name: string, ts: seq<nat>): State
    decreases |ts|
  {
    if ts == [] then s else NotifyAll(NotifyStep(s, name, ts[0]).next, name, ts[1..])
  }

  /**
   * Debouncing a whole burst: only the last timer stays pending, every earlier one
   * fires as a no-op, and the last fires exactly as a single notification would.
   */
  lemma {:induction false} DebounceCoalescesMany(s: State, name: string, ts: seq<nat>, tracks: seq<string>)
    requires EndsWith(name, Ext) && |ts| > 0
    ensures NotifyAll(s, name, ts) == s.(timers := s.timers[name := ts[|ts| - 1]])
    ensures forall k :: 0 <= k < |ts| && ts[k] != ts[|ts| - 1] ==>
      FireStep(NotifyAll(s, name, ts), name, ts[k], tracks) == Outcome(NotifyAll(s, name, ts), [])
    ensures FireStep(NotifyAll(s, name, ts), name, ts[|ts| - 1], tracks)
      == FireStep(NotifyStep(s, name, ts[|ts| - 1]).next, name, ts[|ts| - 1], tracks)
    decreases |ts|
  {
    var a := NotifyStep(s, name, ts[0]).next;
    if |ts| > 1 {
      DebounceCoalescesMany(a, name, ts[1..], tracks);
      assert a.timers[name := ts[|ts| - 1]] == s.timers[name := ts[|ts| - 1]];
    }
  }

  /** A notification for anything other than a track file changes nothing. */
  lemma NotifyIgnoresNonTracks(s: State, name: string, timer: nat)
    requires !EndsWith(name, Ext)
    ensures NotifyStep(s, name, timer).next == s
    ensures !Pending(NotifyStep(s, name, timer).next, name, timer) || Pending(s, name, timer)
  {
  }

  /** Creating an existing track answers 409 and writes nothing. */
  lemma CreateExistingWritesNothing(s: State, requested: string, ok: bool)
    requires IsValidName(CreateName(requested)) && requested != ""
    requires CreateName(requested) in s.files
    ensures CreateStep(s, requested, ok) == Reply(s, Failure(TrackExists), [])
  {
  }

  /** A created track reads back as its starter text. */
  lemma CreateThenGet(s: State, requested: string)
    requires CreateStep(s, requested, true).reply.Success?
    ensures var o := CreateStep(s, requested, true);
      GetTrack(o.next, o.reply.value) == Success(StarterText(o.reply.value))
  {
  }

  /**
   * `tracks` is what `listTracks()` returns over `files`: sorted, each name once,
   * and exactly the names of `files` that end in `.strudel`.
   */
  predicate ListsTracks(tracks: seq<string>, files: map<string, string>) {
    && TL.Sorted(tracks)
    && (forall i, j :: 0 <= i < j < |tracks| ==> tracks[i] != tracks[j])
    && (forall k :: k in tracks ==> k in files && EndsWith(k, Ext))
    && (forall k :: k in files && EndsWith(k, Ext) ==> k in tracks)
  }

  /** A name occurs in a list without repeats once, and a missing name not at all. */
  lemma {:induction false} DistinctCount(a: seq<string>, x: string)
    requires forall i, j :: 0 <= i < j < |a| ==> a[i] != a[j]
    ensures multiset(a)[x] == if x in a then 1 else 0
    decreases |a|
  {
    if |a| > 0 {
      assert a == [a[0]] + a[1..];
      DistinctCount(a[1..], x);
      if x == a[0] {
        assert x !in a[1..];
      }
    }
  }

  /** The listing of a directory is determined by its files. */
  lemma ListingUnique(a: seq<string>, b: seq<string>, files: map<string, string>)
    requires ListsTracks(a, files) && ListsTracks(b, files)
    ensures a == b
  {
    forall x ensures multiset(a)[x] == multiset(b)[x] {
      DistinctCount(a, x);
      DistinctCount(b, x);
    }
    assert multiset(a) == multiset(b);
    TL.SortedUnique(a, b);
  }

  /**
   * When the broadcast listing is the listing of the directory, the `tracklist`
   * a fire ends with lists the directory after the fire: a deleted track is no
   * longer in it, and a changed one is.
   */
  lemma FireListsDirectory(s: State, name: string, timer: nat, tracks: seq<string>)
    requires Inv(s) && Pending(s, name, timer) && ListsTracks(tracks, s.files)
    ensures var o := FireStep(s, name, timer, tracks);
      o.events[|o.events| - 1] == TrackList(tracks) && ListsTracks(tracks, o.next.files)
    ensures name !in s.suppressed && name !in s.files ==>
      FireStep(s, name, timer, tracks).events == [Delete(name), TrackList(tracks)] && name !in tracks
    ensures name !in s.suppressed && name in s.files ==>
      FireStep(s, name, timer, tracks).events[0] == Change(name, s.files[name], UndoDepth(FireStep(s, name, timer, tracks).next, name))
      && name in tracks
  {
  }

  // ---------------------------------------------------------------------------
  // The server object

  class Server {
    var files: map<string, string>
    var history: map<string, H.Stack>
    var suppressed: set<string>
    var timers: map<string, nat>

    function Snapshot(): State
      reads this
    {
      State(files, history, suppressed, timers)
    }

    predicate Valid()
      reads this
    {
      Inv(Snapshot())
    }

    /** Start-up: every listed track that can be read is snapshotted into its own stack. */
    constructor (disk: map<string, string>, tracks: seq<string>)
      ensures Snapshot() == State(disk, InitialHistory(disk, tracks), {}, map[])
      ensures Valid()
    {
      files := disk;
      history := map[];
      suppressed := {};
      timers := map[];
      new;
      for i := 0 to |tracks|
        invariant files == disk && suppressed == {} && timers == map[]
        invariant history == InitialHistory(disk, tracks[..i])
      {
        var name := tracks[i];
        InitialHistoryStep(disk, tracks, i);
        if name in disk {
          ghost var h := history;
          assert H.Push(StackOf(h, name), disk[name]) == [disk[name]];
          PushHistory(name, disk[name]);
          assert history == h[name := [disk[name]]];
        }
      }
      assert tracks[..|tracks|] == tracks;
    }

    /** `pushHistory`: the stack of `name` (created empty if missing) gets `content` pushed. */
    method PushHistory(name: string, content: string)
      modifies this
      ensures history == old(history)[name := H.Push(StackOf(old(history), name), content)]
      ensures files == old(files) && suppressed == old(suppressed) && timers == old(timers)
    {
      var stack := if name in history then history[name] else [];
      if |stack| > 0 && stack[|stack| - 1] == content {
        history := history[name := stack];
        return;
      }
      history := history[name := stack + [content]];
    }

    method Get(name: string) returns (r: Result<string, Status>)
      ensures r == GetTrack(Snapshot(), name)
    {
      if !IsValidName(name) {
        return Failure(InvalidTrackName);
      }
      if name !in files {
        return Failure(TrackNotFound);
      }
      return Success(files[name]);
    }

    method Save(name: string, content: Option<string>, writeOk: bool) returns (r: Result<(), Status>)
      requires Valid()
      modifies this
      ensures Reply(Snapshot(), r, []) == SaveStep(old(Snapshot()), name, content, writeOk)
      ensures Valid()
    {
      WritesPreserveInv(Snapshot(), name, content, 0, writeOk);
      if !IsValidName(name) {
        return Failure(InvalidTrackName);
      }
      if content.None? {
        return Failure(MissingContent);
      }
      if !writeOk {
        return Failure(WriteFailed);
      }
      files := files[name := content.value];
      r := Success(());
    }

    method Create(requested: string, writeOk: bool) returns (r: Result<string, Status>)
      requires Valid()
      modifies this
      ensures Reply(Snapshot(), r, []) == CreateStep(old(Snapshot()), requested, writeOk)
      ensures Valid()
    {
      WritesPreserveInv(Snapshot(), requested, None, 0, writeOk);
      if requested == "" {
        return Failure(MissingTrackName);
      }
      var name := requested;
      if !EndsWith(name, Ext) {
        name := name + Ext;
      }
      if !IsValidName(name) {
        return Failure(InvalidTrackName);
      }
      if name in files {
        return Failure(TrackExists);
      }
      if !writeOk {
        return Failure(WriteFailed);
      }
      files := files[name := StarterText(name)];
      r := Success(name);
    }

    method Undo(name: string, writeOk: bool) returns (r: Result<nat, Status>, events: seq<Event>)
      requires Valid()
      modifies this
      ensures Reply(Snapshot(), r, events) == UndoStep(old(Snapshot()), name, writeOk)
      ensures Valid()
    {
      UndoPreservesInv(Snapshot(), name, writeOk);
      if !IsValidName(name) {
        return Failure(InvalidTrackName), [];
      }
      if name !in history || |history[name]| <= 1 {
        return Failure(NothingToUndo), [];
      }
      var stack := history[name];
      stack := stack[..|stack| - 1];
      history := history[name := stack];
      var previous := stack[|stack| - 1];
      suppressed := suppressed + {name};
      if !writeOk {
        return Failure(WriteFailed), [];
      }
      files := files[name := previous];
      var depth := UndoDepth(Snapshot(), name);
      r, events := Success(depth), [Change(name, previous, depth)];
    }

    method Notify(name: string, timer: nat) returns (cleared: Option<nat>)
      requires Valid()
      modifies this
      ensures Reply(Snapshot(), cleared, []) == NotifyStep(old(Snapshot()), name, timer)
      ensures Valid()
    {
      WritesPreserveInv(Snapshot(), name, None, timer, false);
      if !EndsWith(name, Ext) {
        return None;
      }
      cleared := None;
      if name in timers {
        cleared := Some(timers[name]);
      }
      timers := timers[name := timer];
    }

    method Fire(name: string, timer: nat, tracks: seq<string>) returns (events: seq<Event>)
      requires Valid()
      modifies this
      ensures Outcome(Snapshot(), events) == FireStep(old(Snapshot()), name, timer, tracks)
      ensures Valid()
    {
      FirePreservesInv(Snapshot(), name, timer, tracks);
      if name !in timers || timers[name] != timer {
        return [];
      }
      timers := timers - {name};
      if name in suppressed {
        suppressed := suppressed - {name};
        return [TrackList(tracks)];
      }
      if name in files {
        var content := files[name];
        PushHistory(name, content);
        events := [Change(name, content, UndoDepth(Snapshot(), name)), TrackList(tracks)];
      } else {
        history := history - {name};
        events := [Delete(name), TrackList(tracks)];
      }
    }
  }
}
