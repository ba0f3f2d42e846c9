/**
 * The undo history of one track (server/index.js, `fileHistory`): a stack of full
 * contents, oldest first, whose last entry is the content the server last saw.
 * These functions are what `pushHistory`, `getUndoDepth` and the undo route do to
 * one stack; the server class applies them to its map of stacks.
 */
module History {
  import opened Wrappers

  type Stack = seq<string>

  /** No two consecutive entries are equal. */
  predicate NoAdjacentDuplicates(s: Stack) {
    forall i :: 0 < i < |s| ==> s[i - 1] != s[i]
  }

  /** `pushHistory` on one stack: append `content` unless it equals the top. */
  function Push(s: Stack, content: string): Stack {
    if |s| > 0 && s[|s| - 1] == content then s else s + [content]
  }

  /** `getUndoDepth` on one stack: `max(0, length - 1)`. */
  function Depth(s: Stack): nat {
    if |s| == 0 then 0 else |s| - 1
  }

  /** The undo route on one stack: refused with at most one entry, else the top is popped. */
  function Undo(s: Stack): Option<Stack> {
    if |s| <= 1 then None else Some(s[..|s| - 1])
  }

  /** After a push the content is on top and everything below is as before. */
  lemma PushTop(s: Stack, content: string)
    ensures |Push(s, content)| > 0 && Push(s, content)[|Push(s, content)| - 1] == content
    ensures Push(s, content)[..|s|] == s
  {
  }

  /** A push never creates two equal adjacent entries. */
  lemma PushKeepsNoAdjacentDuplicates(s: Stack, content: string)
    requires NoAdjacentDuplicates(s)
    ensures NoAdjacentDuplicates(Push(s, content))
  {
  }

  /**
   * Pushing the current top changes nothing; pushing anything else adds exactly one
   * entry, so the depth grows by one exactly when the content is new.
   */
  lemma PushGrowth(s: Stack, content: string)
    ensures (|s| > 0 && s[|s| - 1] == content) ==> Push(s, content) == s
    ensures !(|s| > 0 && s[|s| - 1] == content) ==> |Push(s, content)| == |s| + 1
    ensures |s| > 0 ==>
      (Depth(Push(s, content)) == Depth(s) + 1 <==> s[|s| - 1] != content)
  {
  }

  /** Pushing the same content twice is pushing it once. */
  lemma PushIdempotent(s: Stack, content: string)
    ensures Push(Push(s, content), content) == Push(s, content)
  {
  }

  /** Undo succeeds exactly when the depth is positive and lowers it by exactly one. */
  lemma UndoLowersDepth(s: Stack)
    ensures Undo(s).Some? <==> Depth(s) > 0
    ensures Undo(s).Some? ==>
      && Depth(Undo(s).value) == Depth(s) - 1
      && |Undo(s).value| > 0
      && Undo(s).value + [s[|s| - 1]] == s
  {
  }

  /** Undo removes what a push of new content added. */
  lemma UndoAfterPush(s: Stack, content: string)
    requires |s| > 0 && s[|s| - 1] != content
    ensures Undo(Push(s, content)) == Some(s)
  {
    assert (s + [content])[..|s|] == s;
  }

  /** A sequence of pushes, in order. */
  function PushAll(s: Stack, contents: seq<string>): Stack
    decreases |contents|
  {
    if contents == [] then s else PushAll(Push(s, contents[0]), contents[1..])
  }

  /** `k` undos in a row, failing if any of them is refused. */
  function UndoTimes(s: Stack, k: nat): Option<Stack>
    decreases k
  {
    if k == 0 then Some(s)
    else match Undo(s)
      case None => None
      case Some(t) => UndoTimes(t, k - 1)
  }

  /** Contents that each differ from the previous one are all kept, in order. */
  lemma {:induction false} PushAllDistinct(s: Stack, contents: seq<string>)
    requires |s| > 0 && NoAdjacentDuplicates(s + contents)
    ensures PushAll(s, contents) == s + contents
    decreases |contents|
  {
    if contents != [] {
      assert (s + contents)[|s|] == contents[0];
      assert (s + contents)[|s| - 1] == s[|s| - 1];
      assert Push(s, contents[0]) == s + [contents[0]];
      assert s + [contents[0]] + contents[1..] == s + contents;
      PushAllDistinct(s + [contents[0]], contents[1..]);
    }
  }

  /** `k` undos drop exactly the top `k` entries while one entry would remain. */
  lemma {:induction false} UndoTimesPrefix(s: Stack, k: nat)
    requires k < |s|
    ensures UndoTimes(s, k) == Some(s[..|s| - k])
    decreases k
  {
    if k > 0 {
      assert Undo(s) == Some(s[..|s| - 1]);
      assert UndoTimes(s, k) == UndoTimes(s[..|s| - 1], k - 1);
      var t := s[..|s| - 1];
      UndoTimesPrefix(t, k - 1);
      assert UndoTimes(t, k - 1) == Some(t[..|t| - (k - 1)]);
      assert t[..|t| - (k - 1)] == s[..|s| - k];
    } else {
      assert s[..|s|] == s;
    }
  }

  /**
   * History monotonicity: after writes that each differ from the one before, the
   * depth has grown by their number, undoing that many times returns to the
   * baseline, and undoing down to the oldest entry leaves nothing more to undo.
   */
  lemma HistoryMonotonic(s: Stack, contents: seq<string>)
    requires |s| > 0 && NoAdjacentDuplicates(s + contents)
    ensures Depth(PushAll(s, contents)) == Depth(s) + |contents|
    ensures UndoTimes(PushAll(s, contents), |contents|) == Some(s)
    ensures UndoTimes(PushAll(s, contents), Depth(PushAll(s, contents))) == Some([s[0]])
    ensures Undo([s[0]]) == None
  {
    PushAllDistinct(s, contents);
    UndoBack(s, contents);
    UndoToOldest(s + contents);
    assert (s + contents)[0] == s[0];
  }

  /**
   * A name with no history yet (a track that first reaches the watcher after
   * start-up): pushes of contents that each differ from the previous one make the
   * stack, the depth is one less than their number, and undoing all the way down
   * leaves the first content.
   */
  lemma FirstHistory(contents: seq<string>)
    requires NoAdjacentDuplicates(contents)
    ensures PushAll([], contents) == contents
    ensures |contents| > 0 ==>
      && Depth(PushAll([], contents)) == |contents| - 1
      && UndoTimes(PushAll([], contents), Depth(PushAll([], contents))) == Some([contents[0]])
  {
    if contents != [] {
      var first := [contents[0]];
      assert Push([], contents[0]) == first;
      assert first + contents[1..] == contents;
      PushAllDistinct(first, contents[1..]);
      UndoToOldest(contents);
    }
  }

  /** Undoing the pushed entries one by one returns to `s`. */
  lemma UndoBack(s: Stack, contents: seq<string>)
    requires |s| > 0
    ensures Depth(s + contents) == Depth(s) + |contents|
    ensures UndoTimes(s + contents, |contents|) == Some(s)
  {
    var t := s + contents;
    UndoTimesPrefix(t, |contents|);
    assert t[..|t| - |contents|] == s;
  }

  /** Undoing as often as the depth allows leaves the oldest entry. */
  lemma UndoToOldest(t: Stack)
    requires |t| > 0
    ensures UndoTimes(t, Depth(t)) == Some([t[0]])
  {
    UndoTimesPrefix(t, |t| - 1);
    assert t[..1] == [t[0]];
  }
}
