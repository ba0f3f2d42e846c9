/**
 * Track names: the validity rule every track route applies before touching the
 * tracks directory, the name normalisation of the create route, and the starter
 * text a newly created track receives (server/index.js).
 */
module TrackNames {
  import opened Text
  import opened Wrappers

  /** The extension every track file carries. */
  const Ext := ".strudel"

  /** `isValidName`: non-empty, no backslash, no `..`, not absolute, ends in `.strudel`. */
  predicate IsValidName(name: string) {
    && name != ""
    && !Contains(name, "\\")
    && !Contains(name, "..")
    && !StartsWith(name, "/")
    && EndsWith(name, Ext)
  }

  /** The validity rule stated position by position, without substring search. */
  lemma ValidNameCharacterization(name: string)
    ensures IsValidName(name) <==>
      && |name| >= |Ext|
      && name[|name| - |Ext|..] == Ext
      && name[0] != '/'
      && (forall i :: 0 <= i < |name| ==> name[i] != '\\')
      && (forall i :: 0 <= i < |name| - 1 ==> !(name[i] == '.' && name[i + 1] == '.'))
  {
    ContainsChar(name, '\\');
    ContainsPair(name, '.', '.');
    assert "\\" == ['\\'] && ".." == ['.', '.'];
    if |name| > 0 {
      assert StartsWith(name, "/") <==> name[0] == '/';
    }
  }

  /** Traversal, absolute and backslash names, and names without the extension are refused. */
  lemma InvalidNameExamples()
    ensures !IsValidName("../escape.strudel")
    ensures !IsValidName("/abs.strudel")
    ensures !IsValidName("a\\b.strudel")
    ensures !IsValidName("noext")
  {
    assert "a\\b.strudel"[1..] == "\\b.strudel";
  }

  /** A nested name with the extension is accepted. */
  lemma ValidNameExample(n: string)
    requires n == "folder/song.strudel"
    ensures IsValidName(n)
  {
    ValidNameCharacterization(n);
    forall i | 0 <= i < |n| ensures n[i] != '\\' && (n[i] == '.' ==> i == 11) {
      if i < 10 { } else { }
    }
  }

  /** The create route's name: `.strudel` is appended when it is missing. */
  function CreateName(requested: string): (name: string)
    ensures EndsWith(name, Ext)
  {
    if EndsWith(requested, Ext) then requested else requested + Ext
  }

  datatype NameError = MissingName | InvalidName

  /**
   * The create route's checks before it looks at the directory: an empty name is
   * `Missing name`, the normalised name must then pass `isValidName`.
   */
  function CreateTarget(requested: string): (r: Result<string, NameError>)
    ensures r.Success? ==> IsValidName(r.value) && r.value == CreateName(requested)
    ensures r == Failure(MissingName) <==> requested == ""
  {
    if requested == "" then Failure(MissingName)
    else
      var name := CreateName(requested);
      if IsValidName(name) then Success(name) else Failure(InvalidName)
  }

  /** Normalising twice is normalising once; a name with the extension is left alone. */
  lemma CreateNameIdempotent(requested: string)
    ensures CreateName(CreateName(requested)) == CreateName(requested)
    ensures EndsWith(requested, Ext) ==> CreateName(requested) == requested
  {
  }

  /** A created name loses exactly the appended extension when it is displayed. */
  lemma CreateNameStrip(requested: string)
    ensures !EndsWith(requested, Ext) ==> StripSuffix(CreateName(requested), Ext) == requested
  {
    if !EndsWith(requested, Ext) {
      var n := requested + Ext;
      assert n[..|n| - |Ext|] == requested;
    }
  }

  /** A valid name is accepted by create unchanged. */
  lemma CreateTargetOfValid(name: string)
    requires IsValidName(name)
    ensures CreateTarget(name) == Success(name)
  {
  }

  /**
   * Create accepts every non-empty name free of backslashes and `..`, not absolute
   * and not ending in a dot; the extension is appended only when it is missing.
   */
  lemma {:induction false} CreateTargetAccepts(requested: string)
    requires requested != "" && requested[0] != '/' && requested[|requested| - 1] != '.'
    requires forall i :: 0 <= i < |requested| ==> requested[i] != '\\'
    requires forall i :: 0 <= i < |requested| - 1 ==> !(requested[i] == '.' && requested[i + 1] == '.')
    ensures CreateTarget(requested) == Success(CreateName(requested))
  {
    var n := CreateName(requested);
    ValidNameCharacterization(n);
    if !EndsWith(requested, Ext) {
      assert n == requested + Ext;
      forall i | 0 <= i < |n| - 1
        ensures !(n[i] == '.' && n[i + 1] == '.')
      {
        if i < |requested| - 1 {
          assert n[i] == requested[i] && n[i + 1] == requested[i + 1];
        } else if i == |requested| - 1 {
          assert n[i] == requested[|requested| - 1];
        } else {
          assert n[i + 1] == Ext[i + 1 - |requested|];
        }
      }
      forall i | 0 <= i < |n| ensures n[i] != '\\' {
        if i < |requested| {
          assert n[i] == requested[i];
        } else {
          assert n[i] == Ext[i - |requested|];
        }
      }
    }
  }

  /** A requested name ending in a dot becomes `...strudel`-style and is refused. */
  lemma CreateTargetTrailingDot(requested: string)
    requires requested != "" && requested[|requested| - 1] == '.' && !EndsWith(requested, Ext)
    ensures CreateTarget(requested) == Failure(InvalidName)
  {
    var n := requested + Ext;
    ValidNameCharacterization(n);
    assert n[|requested| - 1] == '.' && n[|requested|] == '.';
  }

  /** Backslashes, `..` and a leading `/` survive normalisation, so create refuses them. */
  lemma CreateTargetRejectsUnsafe(requested: string)
    requires requested != ""
    requires requested[0] == '/'
      || (exists i :: 0 <= i < |requested| && requested[i] == '\\')
      || (exists i :: 0 <= i < |requested| - 1 && requested[i] == '.' && requested[i + 1] == '.')
    ensures CreateTarget(requested) == Failure(InvalidName)
  {
    var n := CreateName(requested);
    ValidNameCharacterization(n);
    assert n[..|requested|] == requested;
    if exists i :: 0 <= i < |requested| && requested[i] == '\\' {
      var i :| 0 <= i < |requested| && requested[i] == '\\';
      assert n[i] == requested[i];
    }
    if exists i :: 0 <= i < |requested| - 1 && requested[i] == '.' && requested[i + 1] == '.' {
      var i :| 0 <= i < |requested| - 1 && requested[i] == '.' && requested[i + 1] == '.';
      assert n[i] == requested[i] && n[i + 1] == requested[i + 1];
    }
  }

  /**
   * Node's `path.basename(name, '.strudel')` for a name ending in the extension:
   * the last `/` component with the extension removed, except that a component
   * equal to the extension keeps it, and the bare name `.strudel` gives "".
   */
  function BaseName(name: string): (b: string)
    requires EndsWith(name, Ext)
  {
    if name == Ext then ""
    else
      var c := LastPiece(name, '/');
      if EndsWith(c, Ext) && c != Ext then c[..|c| - |Ext|] else c
  }

  /** The starter text written into a newly created track: `// <basename>\n`. */
  function StarterText(name: string): string
    requires EndsWith(name, Ext)
  {
    "// " + BaseName(name) + "\n"
  }

  /** The base name is the last path component less the extension, and holds no `/`. */
  lemma BaseNameOfComponent(name: string)
    requires EndsWith(name, Ext) && LastPiece(name, '/') != Ext
    ensures BaseName(name) + Ext == LastPiece(name, '/')
    ensures '/' !in BaseName(name)
  {
    var c := LastPiece(name, '/');
    LastPieceSuffix(name, '/');
    ComponentEndsWithExt(name, c);
    assert name != Ext;
    assert BaseName(name) == c[..|c| - |Ext|];
    assert c[..|c| - |Ext|] + Ext == c;
  }

  /** A last component of a track name other than `.strudel` itself is longer and ends in it. */
  lemma ComponentEndsWithExt(name: string, c: string)
    requires EndsWith(name, Ext) && EndsWith(name, c) && c != Ext
    requires c == name || (|name| > |c| && name[|name| - |c| - 1] == '/')
    ensures |c| > |Ext| && EndsWith(c, Ext)
  {
    assert c[|c| - |Ext|..] == name[|name| - |Ext|..];
  }

  /** Creating `dir/song` names the track `dir/song.strudel` and starts it with `// song`. */
  lemma {:induction false} StarterOfCreated(requested: string)
    requires requested != "" && !EndsWith(requested, Ext) && LastPiece(requested, '/') != ""
    ensures StarterText(CreateName(requested)) == "// " + LastPiece(requested, '/') + "\n"
  {
    var n := requested + Ext;
    assert '/' !in Ext;
    SplitAppend(requested, Ext, '/');
    assert LastPiece(n, '/') == LastPiece(requested, '/') + Ext;
    assert LastPiece(n, '/') != Ext;
    BaseNameOfComponent(n);
  }

  /** The end-to-end example: `a/song` is created as `a/song.strudel`. */
  lemma CreateSongExample(r: string)
    requires r == "a/song"
    ensures CreateTarget(r) == Success("a/song.strudel")
  {
    forall i | 0 <= i < |r| ensures r[i] != '\\' && r[i] != '.' { }
    CreateTargetAccepts(r);
    assert r + Ext == "a/song.strudel";
  }

  /** ... and starts with the line `// song`. */
  lemma SongStarterExample(r: string)
    requires r == "a/song"
    ensures StarterText(CreateName(r)) == "// song\n"
  {
    var stem := r[2..];
    assert stem == "song";
    forall i | 0 <= i < |stem| ensures stem[i] != '/' { }
    SplitNoSep(stem, '/');
    SplitAround(r[..1], stem, '/');
    assert r[..1] + ['/'] + stem == r;
    assert LastPiece(r, '/') == stem;
    StarterOfCreated(r);
  }
}
