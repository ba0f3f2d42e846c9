/**
 * `listTracks` (server/index.js): a recursive scan of the tracks directory that
 * collects the relative names of the files ending in `.strudel` and returns them
 * sorted by JavaScript's default string order. A directory that cannot be read
 * contributes nothing.
 */
module TrackListing {
  import opened Text
  import opened TrackNames

  /**
   * One directory entry. A directory carries its own entries and whether reading
   * it succeeds; every other kind of entry is a `NonDir` (only its name matters).
   */
  datatype Entry = Dir(name: string, readable: bool, children: seq<Entry>) | NonDir(name: string)

  /** The relative name of an entry: `prefix/name`, or `name` at the top level. */
  function JoinPath(prefix: string, name: string): string {
    if prefix == "" then name else prefix + "/" + name
  }

  // ---------------------------------------------------------------------------
  // JavaScript's default string order (`Array.prototype.sort` without a comparator)

  /** `a` sorts no later than `b`: a prefix first, otherwise by the first differing character. */
  predicate Below(a: string, b: string)
    decreases |a|
  {
    |a| == 0 || (|b| > 0 && (a[0] < b[0] || (a[0] == b[0] && Below(a[1..], b[1..]))))
  }

  lemma {:induction false} BelowReflexive(a: string)
    ensures Below(a, a)
    decreases |a|
  {
    if |a| > 0 {
      BelowReflexive(a[1..]);
    }
  }

  lemma {:induction false} BelowTotal(a: string, b: string)
    ensures Below(a, b) || Below(b, a)
    decreases |a|
  {
    if |a| > 0 && |b| > 0 && a[0] == b[0] {
      BelowTotal(a[1..], b[1..]);
    }
  }

  lemma {:induction false} BelowAntisymmetric(a: string, b: string)
    requires Below(a, b) && Below(b, a)
    ensures a == b
    decreases |a|
  {
    if |a| > 0 {
      BelowAntisymmetric(a[1..], b[1..]);
      assert a == [a[0]] + a[1..] && b == [b[0]] + b[1..];
    }
  }

  lemma {:induction false} BelowTransitive(a: string, b: string, c: string)
    requires Below(a, b) && Below(b, c)
    ensures Below(a, c)
    decreases |a|
  {
    if |a| > 0 && a[0] == b[0] && b[0] == c[0] {
      BelowTransitive(a[1..], b[1..], c[1..]);
    }
  }

  predicate Sorted(s: seq<string>) {
    forall i, j :: 0 <= i < j < |s| ==> Below(s[i], s[j])
  }

  /** Inserts `x` before the first entry it sorts below. */
  function Insert(x: string, s: seq<string>): (r: seq<string>)
    ensures multiset(r) == multiset(s) + multiset{x}
    ensures Sorted(s) ==> Sorted(r)
    decreases |s|
  {
    if s == [] then [x]
    else if Below(x, s[0]) then
      InsertFrontSorted(x, s);
      [x] + s
    else
      BelowTotal(x, s[0]);
      var rest := Insert(x, s[1..]);
      assert s == [s[0]] + s[1..];
      InsertAfterSorted(s[0], x, s[1..], rest);
      [s[0]] + rest
  }

  lemma InsertFrontSorted(x: string, s: seq<string>)
    requires s != [] && Below(x, s[0])
    ensures Sorted(s) ==> Sorted([x] + s)
  {
    if Sorted(s) {
      forall i, j | 0 <= i < j < |[x] + s| ensures Below(([x] + s)[i], ([x] + s)[j]) {
        if i == 0 && j > 1 {
          BelowTransitive(x, s[0], s[j - 1]);
        }
      }
    }
  }

  lemma InsertAfterSorted(h: string, x: string, tail: seq<string>, rest: seq<string>)
    requires Below(h, x)
    requires multiset(rest) == multiset(tail) + multiset{x}
    requires Sorted([h] + tail) ==> Sorted(rest)
    ensures Sorted([h] + tail) ==> Sorted([h] + rest)
  {
    if Sorted([h] + tail) {
      forall j | 0 <= j < |rest| ensures Below(h, rest[j]) {
        assert rest[j] in multiset(rest);
        assert ([h] + tail)[0] == h;
        if rest[j] != x {
          assert rest[j] in multiset(tail);
          var k :| 0 <= k < |tail| && tail[k] == rest[j];
          assert ([h] + tail)[k + 1] == tail[k];
        }
      }
    }
  }

  /** `Array.prototype.sort()` on names: an insertion sort into the default order. */
  function SortNames(s: seq<string>): (r: seq<string>)
    ensures Sorted(r) && multiset(r) == multiset(s)
    decreases |s|
  {
    if s == [] then []
    else
      assert s == [s[0]] + s[1..];
      Insert(s[0], SortNames(s[1..]))
  }

  /** Two sorted arrangements of the same names are the same sequence. */
  lemma {:induction false} SortedUnique(a: seq<string>, b: seq<string>)
    requires Sorted(a) && Sorted(b) && multiset(a) == multiset(b)
    ensures a == b
    decreases |a|
  {
    if a != [] {
      SameHead(a, b);
      var x := a[0];
      assert a == [x] + a[1..] && b == [x] + b[1..];
      TailMultiset(a);
      TailMultiset(b);
      SortedUnique(a[1..], b[1..]);
    }
  }

  /** Sorted arrangements of the same non-empty multiset start with the same name. */
  lemma SameHead(a: seq<string>, b: seq<string>)
    requires a != [] && Sorted(a) && Sorted(b) && multiset(a) == multiset(b)
    ensures b != [] && a[0] == b[0]
  {
    assert a[0] in multiset(b);
    assert b[0] in multiset(a);
    var i :| 0 <= i < |a| && a[i] == b[0];
    var j :| 0 <= j < |b| && b[j] == a[0];
    if i == 0 { BelowReflexive(a[0]); }
    if j == 0 { BelowReflexive(b[0]); }
    BelowAntisymmetric(a[0], b[0]);
  }

  lemma TailMultiset(a: seq<string>)
    requires a != []
    ensures multiset(a[1..]) == multiset(a) - multiset{a[0]}
    ensures Sorted(a) ==> Sorted(a[1..])
  {
    assert a == [a[0]] + a[1..];
  }

  // ---------------------------------------------------------------------------
  // What the scan collects, before sorting

  /** The track names found under `entries`, in directory order. */
  function ScanEntries(entries: seq<Entry>, prefix: string): seq<string>
    decreases entries, 1
  {
    if entries == [] then []
    else ScanEntries(entries[..|entries| - 1], prefix) + ScanEntry(entries[|entries| - 1], prefix)
  }

  function ScanEntry(e: Entry, prefix: string): seq<string>
    decreases e, 0
  {
    match e
    case NonDir(n) => if EndsWith(n, Ext) then [JoinPath(prefix, n)] else []
    case Dir(n, readable, children) => if readable then ScanEntries(children, JoinPath(prefix, n)) else []
  }

  /** The names collected from a directory (`[]` when it cannot be read). */
  function Scan(readable: bool, entries: seq<Entry>, prefix: string): seq<string> {
    if readable then ScanEntries(entries, prefix) else []
  }

  /** Every collected name ends in `.strudel` and lies under the prefix. */
  lemma {:induction false} ScanEntriesAreTracks(entries: seq<Entry>, prefix: string)
    ensures forall k :: 0 <= k < |ScanEntries(entries, prefix)| ==>
      EndsWith(ScanEntries(entries, prefix)[k], Ext)
      && (prefix != "" ==> StartsWith(ScanEntries(entries, prefix)[k], prefix + "/"))
    decreases entries, 1
  {
    if entries != [] {
      ScanEntriesAreTracks(entries[..|entries| - 1], prefix);
      ScanEntryAreTracks(entries[|entries| - 1], prefix);
    }
  }

  lemma {:induction false} ScanEntryAreTracks(e: Entry, prefix: string)
    ensures forall k :: 0 <= k < |ScanEntry(e, prefix)| ==>
      EndsWith(ScanEntry(e, prefix)[k], Ext)
      && (prefix != "" ==> StartsWith(ScanEntry(e, prefix)[k], prefix + "/"))
    decreases e, 0
  {
    match e
    case NonDir(n) =>
    case Dir(n, readable, children) =>
      var p := JoinPath(prefix, n);
      ScanEntriesAreTracks(children, p);
      if prefix != "" {
        forall k | 0 <= k < |ScanEntries(children, p)|
          ensures StartsWith(ScanEntries(children, p)[k], prefix + "/")
        {
          var x := ScanEntries(children, p)[k];
          assert p == prefix + "/" + n;
          if p != "" {
            assert p + "/" <= x;
            assert prefix + "/" <= p;
          } else {
            assert false;
          }
        }
      }
  }

  /**
   * `listTracks(dir, prefix)`: collect the entries of one directory, descending into
   * sub-directories, then sort. The result is the scan's names in sorted order.
   */
  method ListTracks(readable: bool, entries: seq<Entry>, prefix: string) returns (r: seq<string>)
    ensures Sorted(r)
    ensures multiset(r) == multiset(Scan(readable, entries, prefix))
    decreases entries
  {
    if !readable {
      return [];
    }
    var results: seq<string> := [];
    for k := 0 to |entries|
      invariant multiset(results) == multiset(ScanEntries(entries[..k], prefix))
    {
      var e := entries[k];
      assert entries[..k + 1][..k] == entries[..k];
      var rel := JoinPath(prefix, e.name);
      if e.Dir? {
        assert e in entries;
        var sub := ListTracks(e.readable, e.children, rel);
        results := results + sub;
      } else if EndsWith(e.name, Ext) {
        results := results + [rel];
      }
    }
    assert entries[..|entries|] == entries;
    r := SortNames(results);
  }

  /** Every listed name is a track under the prefix, and the listing has no other order. */
  lemma ListingDetermined(readable: bool, entries: seq<Entry>, prefix: string, r: seq<string>)
    requires Sorted(r) && multiset(r) == multiset(Scan(readable, entries, prefix))
    ensures r == SortNames(Scan(readable, entries, prefix))
    ensures forall k :: 0 <= k < |r| ==> EndsWith(r[k], Ext)
  {
    var names := Scan(readable, entries, prefix);
    SortedUnique(r, SortNames(names));
    ScanEntriesAreTracks(entries, prefix);
    forall k | 0 <= k < |r| ensures EndsWith(r[k], Ext) {
      assert r[k] in multiset(names);
    }
  }
}
