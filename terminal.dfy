/**
 * The pure decisions of the terminal backend (server/index.js): which arguments a
 * new Claude session is launched with, given the persisted track-to-session map,
 * and how a WebSocket message is read (a resize command or keyboard input).
 */
module Terminal {
  import opened Wrappers
  import opened Text
  import opened TrackNames

  // ---------------------------------------------------------------------------
  // Launch arguments

  /** A launch decision: the arguments and the persisted map afterwards. */
  datatype Launch = Launch(args: seq<string>, registry: map<string, string>)

  /** Track files smaller than this many bytes count as newly created. */
  const NewTrackBytes := 50

  const NewPromptHead := "Read strudel-guide.md for reference. The file "
  const NewPromptTail := " is a newly created empty track. Ask me what kind of music I want to create before writing anything."
  const EditPromptHead := "Read strudel-guide.md for reference, then read "
  const EditPromptTail := " and help me edit this Strudel track."

  /** The first prompt: ask what to write for a new track, else offer to edit it. */
  function Prompt(relPath: string, isNew: bool): string {
    if isNew then NewPromptHead + relPath + NewPromptTail
    else EditPromptHead + relPath + EditPromptTail
  }

  /** The session token stored for the track, when there is a non-empty one. */
  function KnownToken(registry: map<string, string>, trackName: string): (t: Option<string>)
    ensures t.Some? <==> trackName != "" && trackName in registry && registry[trackName] != ""
    ensures t.Some? ==> t.value == registry[trackName]
  {
    if trackName != "" && trackName in registry && registry[trackName] != "" then Some(registry[trackName])
    else None
  }

  /**
   * The create route's argument choice. A stored token is resumed (whether or not
   * the name is valid); otherwise a valid track gets `newToken` as its session id,
   * which is remembered, with a prompt naming `tracks/<name>`; anything else
   * launches with no arguments. `trackSize` is the file's size, `None` when it
   * cannot be stat'ed.
   */
  function SelectLaunch(registry: map<string, string>, trackName: string, newToken: string, trackSize: Option<nat>): (l: Launch)
    ensures KnownToken(registry, trackName).Some? ==>
      l == Launch(["--resume", registry[trackName]], registry)
    ensures KnownToken(registry, trackName).None? && IsValidName(trackName) ==>
      && |l.args| == 3 && l.args[0] == "--session-id" && l.args[1] == newToken
      && Contains(l.args[2], "tracks/" + trackName)
      && l.registry == registry[trackName := newToken]
    ensures KnownToken(registry, trackName).None? && !IsValidName(trackName) ==>
      l == Launch([], registry)
  {
    match KnownToken(registry, trackName)
    case Some(token) => Launch(["--resume", token], registry)
    case None =>
      if IsValidName(trackName) then
        var relPath := "tracks/" + trackName;
        var isNew := trackSize.Some? && trackSize.value < NewTrackBytes;
        PromptMentionsTrack(relPath, isNew);
        Launch(["--session-id", newToken, Prompt(relPath, isNew)], registry[trackName := newToken])
      else
        Launch([], registry)
  }

  /** The prompt contains the track's path. */
  lemma PromptMentionsTrack(relPath: string, isNew: bool)
    ensures Contains(Prompt(relPath, isNew), relPath)
  {
    var head := if isNew then NewPromptHead else EditPromptHead;
    var tail := if isNew then NewPromptTail else EditPromptTail;
    var p := Prompt(relPath, isNew);
    assert p == head + relPath + tail;
    assert p[|head|..|head| + |relPath|] == relPath;
    assert OccursAt(p, relPath, |head|);
    ContainsIffOccurs(p, relPath);
  }

  /**
   * Persistence makes sessions resumable: after a fresh launch for a valid track
   * with a non-empty token, the next launch for that track resumes that token.
   */
  lemma FreshThenResume(registry: map<string, string>, trackName: string, token: string,
                        size: Option<nat>, token2: string, size2: Option<nat>)
    requires IsValidName(trackName) && KnownToken(registry, trackName).None? && token != ""
    ensures var first := SelectLaunch(registry, trackName, token, size);
      && first.args[0] == "--session-id"
      && SelectLaunch(first.registry, trackName, token2, size2) == Launch(["--resume", token], first.registry)
  {
  }

  /** A launch never forgets a stored session and only ever records the requested track. */
  lemma LaunchKeepsRegistry(registry: map<string, string>, trackName: string, token: string, size: Option<nat>)
    ensures var r := SelectLaunch(registry, trackName, token, size).registry;
      && (forall n :: n in registry && n != trackName ==> n in r && r[n] == registry[n])
      && (forall n :: n in r ==> n in registry || n == trackName)
  {
  }

  /** A small or unreadable file decides between the two prompts. */
  lemma PromptChoice(registry: map<string, string>, trackName: string, token: string, size: Option<nat>)
    requires IsValidName(trackName) && KnownToken(registry, trackName).None?
    ensures var args := SelectLaunch(registry, trackName, token, size).args;
      args[2] == Prompt("tracks/" + trackName, size.Some? && size.value < NewTrackBytes)
    ensures size.None? ==>
      SelectLaunch(registry, trackName, token, size).args[2] == EditPromptHead + "tracks/" + trackName + EditPromptTail
  {
  }

  /** The starter text takes four bytes more than the base name it carries. */
  lemma StarterSize(name: string)
    requires EndsWith(name, Ext)
    ensures Utf8Size(StarterText(name)) == Utf8Size(BaseName(name)) + 4
  {
    var head, base, tail := "// ", BaseName(name), "\n";
    Utf8SizeAppend(head, base);
    Utf8SizeAppend(head + base, tail);
    assert Utf8Size(head) == 3 && Utf8Size(tail) == 1;
  }

  /**
   * A track just created by the create route holds only its starter line. Its size
   * on disk is the starter's UTF-8 length, so it is launched with the new-track
   * prompt exactly when its base name takes under 46 bytes.
   */
  lemma StarterCountsAsNew(registry: map<string, string>, name: string, token: string)
    requires IsValidName(name) && KnownToken(registry, name).None?
    ensures var size := Utf8Size(StarterText(name));
      SelectLaunch(registry, name, token, Some(size)).args[2]
        == Prompt("tracks/" + name, Utf8Size(BaseName(name)) < NewTrackBytes - 4)
  {
    StarterSize(name);
  }

  /** For an ASCII base name, bytes are characters: under 46 characters counts as new. */
  lemma AsciiStarterCountsAsNew(name: string)
    requires EndsWith(name, Ext)
    requires forall i :: 0 <= i < |BaseName(name)| ==> BaseName(name)[i] as int < 0x80
    ensures Utf8Size(StarterText(name)) < NewTrackBytes <==> |BaseName(name)| < NewTrackBytes - 4
  {
    StarterSize(name);
    Utf8SizeAscii(BaseName(name));
  }

  // ---------------------------------------------------------------------------
  // WebSocket messages

  /** A parsed JSON value. */
  datatype Json =
    | JNull
    | JBool(b: bool)
    | JNumber(n: real)
    | JString(s: string)
    | JArray(items: seq<Json>)
    | JObject(fields: map<string, Json>)

  /** JavaScript truthiness of a parsed value. */
  predicate Truthy(j: Json) {
    match j
    case JNull => false
    case JBool(b) => b
    case JNumber(n) => n != 0.0
    case JString(s) => s != ""
    case JArray(_) => true
    case JObject(_) => true
  }

  /** What a message from the terminal's WebSocket does. */
  datatype Inbound = Resize(cols: Json, rows: Json) | Input(data: string)

  /** A parsed object asking for a resize with truthy sizes. */
  predicate IsResizeCommand(j: Json) {
    && j.JObject?
    && "type" in j.fields && j.fields["type"] == JString("resize")
    && "cols" in j.fields && Truthy(j.fields["cols"])
    && "rows" in j.fields && Truthy(j.fields["rows"])
  }

  /**
   * A message is a resize only when its first character is `{`, it parses
   * (`parsed`, `None` when parsing throws) and the result is a resize command;
   * everything else is written to the terminal unchanged.
   */
  function Classify(msg: string, parsed: Option<Json>): (m: Inbound)
    ensures m.Resize? <==> |msg| > 0 && msg[0] == '{' && parsed.Some? && IsResizeCommand(parsed.value)
    ensures m.Resize? ==> m == Resize(parsed.value.fields["cols"], parsed.value.fields["rows"])
    ensures m.Input? ==> m.data == msg
  {
    if |msg| > 0 && msg[0] == '{' && parsed.Some? && IsResizeCommand(parsed.value) then
      Resize(parsed.value.fields["cols"], parsed.value.fields["rows"])
    else Input(msg)
  }

  /** Keystrokes that do not start with `{` always reach the terminal verbatim. */
  lemma KeystrokesForwarded(msg: string, parsed: Option<Json>)
    requires msg == "" || msg[0] != '{'
    ensures Classify(msg, parsed) == Input(msg)
  {
  }

  /** A resize with a zero or missing dimension is typed into the terminal instead. */
  lemma ZeroSizeIsInput(msg: string, fields: map<string, Json>)
    requires "cols" in fields && fields["cols"] == JNumber(0.0)
    ensures Classify(msg, Some(JObject(fields))) == Input(msg)
  {
  }

  /** Text that fails to parse is typed into the terminal. */
  lemma UnparsableIsInput(msg: string)
    ensures Classify(msg, None) == Input(msg)
  {
  }
}
