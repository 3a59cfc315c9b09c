/**
 * The unicode table of a PSF2 file, as readPSF walks it: one entry per glyph,
 * each a list of runs separated by PSF2_SEQ and ended by PSF2_SEP; every
 * character of a run that decodes as UTF-8 is mapped to the entry's glyph.
 */
module Table {
  import opened Bytes
  import opened Wrappers
  import opened Font
  import Utf8

  predicate IsSeparator(x: int)
  {
    x == PSF2_SEQ || x == PSF2_SEP
  }

  /** Where the walk stands: the character map so far and the byte cursor `ptr`. */
  datatype Walked = Walked(charMap: map<char, nat>, ptr: nat)

  /** The position of the first separator at or after p, or None if the buffer ends first. */
  function ScanRun(b: seq<Byte>, p: nat): (r: Option<nat>)
    decreases |b| - p
    ensures r.Some? ==> p <= r.value < |b| && IsSeparator(b[r.value])
    ensures r.Some? ==> forall k :: p <= k < r.value ==> !IsSeparator(b[k])
    ensures r.None? ==> forall k :: p <= k < |b| ==> !IsSeparator(b[k])
  {
    if p >= |b| then None
    else if IsSeparator(b[p]) then Some(p)
    else ScanRun(b, p + 1)
  }

  /** `for char in chars: charMap[char] = i`. */
  function MapChars(m: map<char, nat>, cs: seq<char>, i: nat): map<char, nat>
    decreases |cs|
  {
    if cs == [] then m else MapChars(m[cs[0] := i], cs[1..], i)
  }

  /** One run: decoded characters all map to glyph i; a run that does not decode leaves the map alone. */
  function MapRun(m: map<char, nat>, run: seq<Byte>, i: nat): map<char, nat>
  {
    match Utf8.Decode(run)
    case None => m
    case Some(cs) => MapChars(m, cs, i)
  }

  /** The runs of entry i from p up to and including its PSF2_SEP. */
  function WalkEntry(b: seq<Byte>, p: nat, i: nat, m: map<char, nat>): Result<Walked, Error>
    decreases |b| - p
  {
    match ScanRun(b, p)
    case None => Err(TruncatedTable)
    case Some(q) =>
      var m' := MapRun(m, b[p..q], i);
      if b[q] == PSF2_SEP then Ok(Walked(m', q + 1)) else WalkEntry(b, q + 1, i, m')
  }

  /** Entries i to n - 1, starting at p. */
  function WalkTable(b: seq<Byte>, p: nat, i: nat, n: nat, m: map<char, nat>): Result<Walked, Error>
    decreases n - i
  {
    if i >= n then Ok(Walked(m, p))
    else
      match WalkEntry(b, p, i, m)
      case Err(e) => Err(e)
      case Ok(w) => WalkTable(b, w.ptr, i + 1, n, w.charMap)
  }

  /** Mapping a run of characters: each maps to i, later keys overwrite earlier ones, other keys keep their glyph. */
  lemma {:induction false} MapCharsSpec(m: map<char, nat>, cs: seq<char>, i: nat)
    ensures MapChars(m, cs, i).Keys == m.Keys + set c | c in cs
    ensures forall c :: c in cs ==> MapChars(m, cs, i)[c] == i
    ensures forall c :: c in m && c !in cs ==> MapChars(m, cs, i)[c] == m[c]
    decreases |cs|
  {
    if cs != [] {
      MapCharsSpec(m[cs[0] := i], cs[1..], i);
      assert forall c :: c in cs <==> c == cs[0] || c in cs[1..];
    }
  }

  /** Mapping two runs one after the other is mapping their concatenation. */
  lemma {:induction false} MapCharsAppend(m: map<char, nat>, a: seq<char>, c: seq<char>, i: nat)
    ensures MapChars(MapChars(m, a, i), c, i) == MapChars(m, a + c, i)
    decreases |a|
  {
    if a == [] {
      assert a + c == c;
    } else {
      MapCharsAppend(m[a[0] := i], a[1..], c, i);
      assert (a + c)[1..] == a[1..] + c;
    }
  }

  /** The characters of a run that decodes as UTF-8; none for a run that does not. */
  function RunChars(run: seq<Byte>): set<char>
  {
    match Utf8.Decode(run)
    case None => {}
    case Some(cs) => set c | c in cs
  }

  /**
   * One run: the keys are the old keys plus the run's decoded characters, each
   * of which maps to i; every other key keeps its glyph, and a run that does
   * not decode leaves the map unchanged.
   */
  lemma MapRunSpec(m: map<char, nat>, run: seq<Byte>, i: nat)
    ensures MapRun(m, run, i).Keys == m.Keys + RunChars(run)
    ensures forall c :: c in RunChars(run) ==> MapRun(m, run, i)[c] == i
    ensures forall c :: c in m && c !in RunChars(run) ==> MapRun(m, run, i)[c] == m[c]
    ensures Utf8.Decode(run).None? ==> MapRun(m, run, i) == m
  {
    match Utf8.Decode(run) {
      case None =>
      case Some(cs) => MapCharsSpec(m, cs, i);
    }
  }

  /** A run found by ScanRun holds no PSF2_SEP, and the separator after it holds one if it is PSF2_SEP. */
  lemma RunSeparators(b: seq<Byte>, p: nat)
    requires ScanRun(b, p).Some?
    ensures var q := ScanRun(b, p).value;
      multiset(b[p..q + 1])[PSF2_SEP] == if b[q] == PSF2_SEP then 1 else 0
  {
    var q := ScanRun(b, p).value;
    var run := b[p..q];
    forall k | 0 <= k < |run| ensures run[k] != PSF2_SEP {
      assert run[k] == b[p + k];
    }
    assert multiset(run)[PSF2_SEP] == 0;
    assert b[p..q + 1] == run + [b[q]];
  }

  /** An entry ends just after the first PSF2_SEP from p, the only one it consumes. */
  lemma WalkEntryEnd(b: seq<Byte>, p: nat, i: nat, m: map<char, nat>)
    requires WalkEntry(b, p, i, m).Ok?
    ensures var w := WalkEntry(b, p, i, m).value;
      p < w.ptr <= |b| && b[w.ptr - 1] == PSF2_SEP && multiset(b[p..w.ptr])[PSF2_SEP] == 1
  {
    WalkEntryRuns(b, p, i, m);
    EntryRunsSeparators(b, p);
  }

  /** An entry cut into its runs, and the position just after its PSF2_SEP. */
  datatype Split = Split(parts: seq<seq<Byte>>, end: nat)

  /** The runs of the entry at p, whatever they map to: the map plays no part in the walk's path. */
  function EntryRuns(b: seq<Byte>, p: nat): Option<Split>
    decreases |b| - p
  {
    match ScanRun(b, p)
    case None => None
    case Some(q) =>
      if b[q] == PSF2_SEP then Some(Split([b[p..q]], q + 1))
      else
        match EntryRuns(b, q + 1)
        case None => None
        case Some(rest) => Some(Split([b[p..q]] + rest.parts, rest.end))
  }

  /** The runs one after the other, each mapping its characters to glyph i. */
  function MapRuns(m: map<char, nat>, parts: seq<seq<Byte>>, i: nat): map<char, nat>
    decreases |parts|
  {
    if parts == [] then m else MapRuns(MapRun(m, parts[0], i), parts[1..], i)
  }

  /** Walking an entry is cutting it into runs and mapping them in order. */
  lemma {:induction false} WalkEntryRuns(b: seq<Byte>, p: nat, i: nat, m: map<char, nat>)
    ensures WalkEntry(b, p, i, m) ==
      match EntryRuns(b, p)
      case None => Err(TruncatedTable)
      case Some(s) => Ok(Walked(MapRuns(m, s.parts, i), s.end))
    decreases |b| - p
  {
    match ScanRun(b, p) {
      case None =>
      case Some(q) =>
        var m' := MapRun(m, b[p..q], i);
        if b[q] == PSF2_SEP {
          assert MapRuns(m, [b[p..q]], i) == MapRuns(m', [], i);
        } else {
          WalkEntryRuns(b, q + 1, i, m');
          match EntryRuns(b, q + 1) {
            case None =>
            case Some(rest) =>
              assert ([b[p..q]] + rest.parts)[1..] == rest.parts;
          }
        }
    }
  }

  lemma {:induction false} EntryRunsSeparators(b: seq<Byte>, p: nat)
    requires EntryRuns(b, p).Some?
    ensures var e := EntryRuns(b, p).value.end;
      p < e <= |b| && b[e - 1] == PSF2_SEP && multiset(b[p..e])[PSF2_SEP] == 1
    decreases |b| - p
  {
    var q := ScanRun(b, p).value;
    RunSeparators(b, p);
    EntryRunsStep(b, p, q);
    if b[q] != PSF2_SEP {
      EntryRunsSeparators(b, q + 1);
      SepCountAfter(b, p, q + 1, EntryRuns(b, q + 1).value.end);
    }
  }

  /** A stretch without PSF2_SEP followed by one with a single PSF2_SEP holds a single PSF2_SEP. */
  lemma SepCountAfter(b: seq<Byte>, p: nat, q: nat, e: nat)
    requires p <= q <= e <= |b|
    requires multiset(b[p..q])[PSF2_SEP] == 0 && multiset(b[q..e])[PSF2_SEP] == 1
    ensures multiset(b[p..e])[PSF2_SEP] == 1
  {
    SepCountSplit(b, p, q, e);
  }

  /** PSF2_SEP bytes of two adjacent stretches add up. */
  lemma SepCountSplit(b: seq<Byte>, p: nat, q: nat, r: nat)
    requires p <= q <= r <= |b|
    ensures multiset(b[p..r])[PSF2_SEP] == multiset(b[p..q])[PSF2_SEP] + multiset(b[q..r])[PSF2_SEP]
  {
    assert b[p..r] == b[p..q] + b[q..r];
  }

  /** The characters of every run of an entry that decodes. */
  function EntryChars(parts: seq<seq<Byte>>): set<char>
    decreases |parts|
  {
    if parts == [] then {} else RunChars(parts[0]) + EntryChars(parts[1..])
  }

  /** A character belongs to an entry exactly when one of its runs decodes and holds it. */
  lemma {:induction false} EntryCharsIn(parts: seq<seq<Byte>>, c: char)
    ensures c in EntryChars(parts) <==> exists k :: 0 <= k < |parts| && c in RunChars(parts[k])
    decreases |parts|
  {
    if parts != [] {
      EntryCharsIn(parts[1..], c);
      if c in EntryChars(parts[1..]) {
        var k :| 0 <= k < |parts| - 1 && c in RunChars(parts[1..][k]);
        assert parts[1..][k] == parts[k + 1];
      }
      if exists k :: 0 <= k < |parts| && c in RunChars(parts[k]) {
        var k :| 0 <= k < |parts| && c in RunChars(parts[k]);
        if k > 0 {
          assert parts[1..][k - 1] == parts[k];
        }
      }
    }
  }

  /**
   * The runs of an entry, mapped in order: the keys are the old keys plus the
   * characters of every run that decodes, each of which maps to i; every
   * other key keeps its glyph. A run that does not decode is skipped and the
   * runs after it are still mapped.
   */
  lemma {:induction false} MapRunsSpec(m: map<char, nat>, parts: seq<seq<Byte>>, i: nat)
    ensures MapRuns(m, parts, i).Keys == m.Keys + EntryChars(parts)
    ensures forall c :: c in EntryChars(parts) ==> MapRuns(m, parts, i)[c] == i
    ensures forall c :: c in m && c !in EntryChars(parts) ==> MapRuns(m, parts, i)[c] == m[c]
    decreases |parts|
  {
    if parts != [] {
      MapRunSpec(m, parts[0], i);
      MapRunsSpec(MapRun(m, parts[0], i), parts[1..], i);
    }
  }

  /** Every character of run k, when that run decodes, ends up mapped to the entry's glyph i. */
  lemma MapRunsHit(m: map<char, nat>, parts: seq<seq<Byte>>, i: nat, k: nat, c: char)
    requires k < |parts| && Utf8.Decode(parts[k]).Some? && c in Utf8.Decode(parts[k]).value
    ensures c in MapRuns(m, parts, i) && MapRuns(m, parts, i)[c] == i
  {
    assert c in RunChars(parts[k]);
    EntryCharsIn(parts, c);
    MapRunsSpec(m, parts, i);
  }

  /**
   * An entry that is walked cuts into runs; the map after it has the old keys
   * plus the characters of every run that decodes, each mapped to i, and every
   * other key keeps its glyph.
   */
  lemma WalkEntryMap(b: seq<Byte>, p: nat, i: nat, m: map<char, nat>)
    requires WalkEntry(b, p, i, m).Ok?
    ensures EntryRuns(b, p).Some?
    ensures var w, cs := WalkEntry(b, p, i, m).value, EntryChars(EntryRuns(b, p).value.parts);
      && w.charMap.Keys == m.Keys + cs
      && (forall c :: c in cs ==> w.charMap[c] == i)
      && (forall c :: c in m && c !in cs ==> w.charMap[c] == m[c])
  {
    WalkEntryRuns(b, p, i, m);
    MapRunsSpec(m, EntryRuns(b, p).value.parts, i);
  }

  /** The only way an entry fails is by running off the end of the bytes. */
  lemma {:induction false} WalkEntryError(b: seq<Byte>, p: nat, i: nat, m: map<char, nat>)
    requires WalkEntry(b, p, i, m).Err?
    ensures WalkEntry(b, p, i, m).error == TruncatedTable
    decreases |b| - p
  {
    match ScanRun(b, p) {
      case None =>
      case Some(q) =>
        if b[q] != PSF2_SEP {
          WalkEntryError(b, q + 1, i, MapRun(m, b[p..q], i));
        }
    }
  }

  /** The only way the table walk fails is by running off the end of the bytes. */
  lemma {:induction false} WalkTableError(b: seq<Byte>, p: nat, i: nat, n: nat, m: map<char, nat>)
    requires WalkTable(b, p, i, n, m).Err?
    ensures WalkTable(b, p, i, n, m).error == TruncatedTable
    decreases n - i
  {
    match WalkEntry(b, p, i, m) {
      case Err(_) => WalkEntryError(b, p, i, m);
      case Ok(w) => WalkTableError(b, w.ptr, i + 1, n, w.charMap);
    }
  }

  /** An entry from p is walked exactly when a PSF2_SEP lies at or after p; otherwise the walk runs off the end. */
  lemma {:induction false} WalkEntryFound(b: seq<Byte>, p: nat, i: nat, m: map<char, nat>)
    requires p <= |b|
    ensures WalkEntry(b, p, i, m).Ok? <==> PSF2_SEP in b[p..]
    decreases |b| - p
  {
    match ScanRun(b, p) {
      case None =>
        SepAfterRun(b, p, |b|);
      case Some(q) =>
        SepAfterRun(b, p, q);
        if b[q] != PSF2_SEP {
          WalkEntryFound(b, q + 1, i, MapRun(m, b[p..q], i));
        }
    }
  }

  /** With no separator from p to q, a PSF2_SEP from p on is one at q or after it. */
  lemma SepAfterRun(b: seq<Byte>, p: nat, q: nat)
    requires p <= q <= |b| && forall k :: p <= k < q ==> !IsSeparator(b[k])
    ensures PSF2_SEP in b[p..] <==> (q < |b| && (b[q] == PSF2_SEP || PSF2_SEP in b[q + 1..]))
  {
    assert b[p..] == b[p..q] + b[q..];
    forall k | 0 <= k < q - p ensures b[p..q][k] != PSF2_SEP {
      assert b[p..q][k] == b[p + k];
    }
    if q < |b| {
      assert b[q..] == [b[q]] + b[q + 1..];
    }
  }

  /**
   * The walk of entries i to n - 1 from p succeeds exactly when at least
   * n - i PSF2_SEP bytes lie at or after p; otherwise it runs off the end.
   */
  lemma {:induction false} WalkTableFound(b: seq<Byte>, p: nat, i: nat, n: nat, m: map<char, nat>)
    requires p <= |b| && i <= n
    ensures WalkTable(b, p, i, n, m).Ok? <==> multiset(b[p..])[PSF2_SEP] >= n - i
    decreases n - i
  {
    if i < n {
      WalkEntryFound(b, p, i, m);
      match WalkEntry(b, p, i, m) {
        case Err(_) =>
          assert PSF2_SEP !in multiset(b[p..]);
        case Ok(w) =>
          WalkEntryEnd(b, p, i, m);
          WalkTableFound(b, w.ptr, i + 1, n, w.charMap);
          SepCountRest(b, p, w.ptr);
      }
    }
  }

  /** The PSF2_SEP bytes from p on are those of p to e plus those from e on. */
  lemma SepCountRest(b: seq<Byte>, p: nat, e: nat)
    requires p <= e <= |b|
    ensures multiset(b[p..])[PSF2_SEP] == multiset(b[p..e])[PSF2_SEP] + multiset(b[e..])[PSF2_SEP]
  {
    assert b[p..] == b[p..e] + b[e..];
  }

  /** A walk of at least one entry from past the end of the bytes runs off the end. */
  lemma WalkTablePastEnd(b: seq<Byte>, p: nat, i: nat, n: nat, m: map<char, nat>)
    requires |b| <= p && i < n
    ensures WalkTable(b, p, i, n, m) == Err(TruncatedTable)
  {
    assert ScanRun(b, p) == None;
  }

  /** A successful walk of entries i to n - 1 keeps every earlier key and maps only to glyphs below n. */
  lemma {:induction false} WalkTableKeys(b: seq<Byte>, p: nat, i: nat, n: nat, m: map<char, nat>)
    requires forall c :: c in m ==> m[c] < n
    requires WalkTable(b, p, i, n, m).Ok?
    ensures var w := WalkTable(b, p, i, n, m).value;
      && m.Keys <= w.charMap.Keys
      && (forall c :: c in w.charMap ==> w.charMap[c] < n)
    decreases n - i
  {
    if i < n {
      WalkEntryMap(b, p, i, m);
      var e := WalkEntry(b, p, i, m).value;
      WalkTableKeys(b, e.ptr, i + 1, n, e.charMap);
    }
  }

  /**
   * A successful walk of entries i to n - 1 consumes exactly n - i PSF2_SEP
   * bytes and ends just after one.
   */
  lemma {:induction false} WalkTableEnd(b: seq<Byte>, p: nat, i: nat, n: nat, m: map<char, nat>)
    requires WalkTable(b, p, i, n, m).Ok?
    ensures var w := WalkTable(b, p, i, n, m).value;
      && (i >= n ==> w.ptr == p)
      && (i < n ==> p < w.ptr <= |b| && b[w.ptr - 1] == PSF2_SEP && multiset(b[p..w.ptr])[PSF2_SEP] == n - i)
    decreases n - i
  {
    if i < n {
      WalkEntryEnd(b, p, i, m);
      var e := WalkEntry(b, p, i, m).value;
      WalkTableEnd(b, e.ptr, i + 1, n, e.charMap);
      var w := WalkTable(b, p, i, n, m).value;
      if i + 1 < n {
        SepCountSplit(b, p, e.ptr, w.ptr);
      }
    }
  }

  /** The runs of each of the entries i to n - 1, in order, and the position just after the last. */
  datatype Cut = Cut(entries: seq<seq<seq<Byte>>>, end: nat)

  /** Entries i to n - 1 from p, each cut into its runs as the walk cuts it. */
  function TableRuns(b: seq<Byte>, p: nat, i: nat, n: nat): (r: Option<Cut>)
    decreases n - i
    ensures r.Some? && i <= n ==> |r.value.entries| == n - i
  {
    if i >= n then Some(Cut([], p))
    else
      match EntryRuns(b, p)
      case None => None
      case Some(s) =>
        match TableRuns(b, s.end, i + 1, n)
        case None => None
        case Some(t) => Some(Cut([s.parts] + t.entries, t.end))
  }

  /** The runs of each entry mapped in order, entry k to glyph i + k. */
  function MapEntries(m: map<char, nat>, es: seq<seq<seq<Byte>>>, i: nat): map<char, nat>
    decreases |es|
  {
    if es == [] then m else MapEntries(MapRuns(m, es[0], i), es[1..], i + 1)
  }

  /** Walking the table is cutting each entry into runs and mapping the entries in order. */
  lemma {:induction false} WalkTableRuns(b: seq<Byte>, p: nat, i: nat, n: nat, m: map<char, nat>)
    ensures WalkTable(b, p, i, n, m) ==
      match TableRuns(b, p, i, n)
      case None => Err(TruncatedTable)
      case Some(t) => Ok(Walked(MapEntries(m, t.entries, i), t.end))
    decreases n - i
  {
    if i < n {
      WalkEntryRuns(b, p, i, m);
      match EntryRuns(b, p) {
        case None =>
        case Some(s) =>
          WalkTableRuns(b, s.end, i + 1, n, MapRuns(m, s.parts, i));
          match TableRuns(b, s.end, i + 1, n) {
            case None =>
            case Some(t) =>
              assert ([s.parts] + t.entries)[1..] == t.entries;
          }
      }
    }
  }

  /** Entry k is the last of the entries whose decoded runs hold c. */
  predicate LastHolder(es: seq<seq<seq<Byte>>>, k: nat, c: char)
  {
    k < |es| && c in EntryChars(es[k]) && NoneHold(es, k + 1, c)
  }

  /** No entry from k on holds c in a decoded run. */
  predicate NoneHold(es: seq<seq<seq<Byte>>>, k: nat, c: char)
  {
    forall j :: k <= j < |es| ==> c !in EntryChars(es[j])
  }

  /** MapRunsSpec for one character. */
  lemma MapRunsChar(m: map<char, nat>, parts: seq<seq<Byte>>, i: nat, c: char)
    ensures c in MapRuns(m, parts, i) <==> c in m || c in EntryChars(parts)
    ensures c in EntryChars(parts) ==> MapRuns(m, parts, i)[c] == i
    ensures c in m && c !in EntryChars(parts) ==> MapRuns(m, parts, i)[c] == m[c]
  {
    MapRunsSpec(m, parts, i);
  }

  /** Dropping the first entry shifts every entry index down by one. */
  lemma TailHold(es: seq<seq<seq<Byte>>>, k: nat, c: char)
    requires |es| >= 1
    ensures NoneHold(es[1..], k, c) <==> NoneHold(es, k + 1, c)
    ensures LastHolder(es[1..], k, c) <==> LastHolder(es, k + 1, c)
  {
    assert forall j :: 0 <= j < |es| - 1 ==> es[1..][j] == es[j + 1];
    if !NoneHold(es, k + 1, c) {
      var j :| k + 1 <= j < |es| && c in EntryChars(es[j]);
      assert es[1..][j - 1] == es[j];
    }
  }

  /** Where one character ends up: kept from the old map if no entry holds it, else at the last entry holding it. */
  lemma {:induction false} MapEntriesChar(m: map<char, nat>, es: seq<seq<seq<Byte>>>, i: nat, c: char)
    ensures c in m ==> c in MapEntries(m, es, i)
    ensures c in MapEntries(m, es, i) ==>
      || (c in m && NoneHold(es, 0, c) && MapEntries(m, es, i)[c] == m[c])
      || (MapEntries(m, es, i)[c] >= i && LastHolder(es, MapEntries(m, es, i)[c] - i, c))
    decreases |es|
  {
    if es != [] {
      var m1, tail := MapRuns(m, es[0], i), es[1..];
      var r := MapEntries(m1, tail, i + 1);
      MapRunsChar(m, es[0], i, c);
      MapEntriesChar(m1, tail, i + 1, c);
      assert r == MapEntries(m, es, i);
      if c in r {
        if c in m1 && NoneHold(tail, 0, c) && r[c] == m1[c] {
          TailHold(es, 0, c);
          NoneHoldStep(es, 0, c);
          if c in EntryChars(es[0]) {
            assert LastHolder(es, 0, c);
          }
        } else {
          var k := r[c] - (i + 1);
          TailHold(es, k, c);
          assert LastHolder(es, k + 1, c);
        }
      }
    }
  }

  /** No entry from k on holds c exactly when entry k does not and no entry from k + 1 on does. */
  lemma NoneHoldStep(es: seq<seq<seq<Byte>>>, k: nat, c: char)
    requires k < |es|
    ensures NoneHold(es, k, c) <==> c !in EntryChars(es[k]) && NoneHold(es, k + 1, c)
  {
  }

  /** A character held by entry k and by no later entry maps to glyph i + k. */
  lemma {:induction false} MapEntriesLast(m: map<char, nat>, es: seq<seq<seq<Byte>>>, i: nat, k: nat, c: char)
    requires LastHolder(es, k, c)
    ensures c in MapEntries(m, es, i) && MapEntries(m, es, i)[c] == i + k
    decreases |es|
  {
    var m1, tail := MapRuns(m, es[0], i), es[1..];
    if k > 0 {
      TailHold(es, k - 1, c);
      MapEntriesLast(m1, tail, i + 1, k - 1, c);
    } else {
      MapRunsChar(m, es[0], i, c);
      TailHold(es, 0, c);
      MapEntriesChar(m1, tail, i + 1, c);
    }
  }

  /**
   * Mapping entries in order: a character held by some entry maps to the
   * glyph of the last entry holding it; any other key is an old key with
   * its old glyph.
   */
  lemma MapEntriesSpec(m: map<char, nat>, es: seq<seq<seq<Byte>>>, i: nat)
    ensures m.Keys <= MapEntries(m, es, i).Keys
    ensures forall c, k: nat :: LastHolder(es, k, c) ==> c in MapEntries(m, es, i) && MapEntries(m, es, i)[c] == i + k
    ensures forall c :: c in MapEntries(m, es, i) ==>
      || (c in m && NoneHold(es, 0, c) && MapEntries(m, es, i)[c] == m[c])
      || (MapEntries(m, es, i)[c] >= i && LastHolder(es, MapEntries(m, es, i)[c] - i, c))
  {
    var r := MapEntries(m, es, i);
    forall c | c in m ensures c in r {
      MapEntriesChar(m, es, i, c);
    }
    forall c | c in r
      ensures || (c in m && NoneHold(es, 0, c) && r[c] == m[c])
              || (r[c] >= i && LastHolder(es, r[c] - i, c))
    {
      MapEntriesChar(m, es, i, c);
    }
    forall c, k: nat | LastHolder(es, k, c) ensures c in r && r[c] == i + k {
      MapEntriesLast(m, es, i, k, c);
    }
  }

  /** A character whose UTF-8 form holds neither separator byte: anything outside U+F000 to U+FFFF. */
  predicate Separable(cs: seq<char>)
  {
    forall k :: 0 <= k < |cs| ==> !(0xF000 <= cs[k] as int <= 0xFFFF)
  }

  /** The encoded runs of one entry, split by PSF2_SEQ and ended by PSF2_SEP, as a table holds them. */
  function EntryBytes(parts: seq<seq<Byte>>): seq<Byte>
    requires |parts| >= 1
    decreases |parts|
  {
    if |parts| == 1 then parts[0] + [PSF2_SEP]
    else parts[0] + [PSF2_SEQ] + EntryBytes(parts[1..])
  }

  /** Each run in UTF-8. */
  function EncodeRuns(runs: seq<seq<char>>): (r: seq<seq<Byte>>)
    ensures |r| == |runs|
    decreases |runs|
  {
    if runs == [] then [] else [Utf8.Encode(runs[0])] + EncodeRuns(runs[1..])
  }

  /**
   * The runs of an entry one after the other. It peels the first run, as the
   * walk maps runs first to last; `Rows.Concat` peels the last row instead,
   * as the glyph loop appends rows at the end.
   */
  function Flatten(runs: seq<seq<char>>): seq<char>
    decreases |runs|
  {
    if runs == [] then [] else runs[0] + Flatten(runs[1..])
  }

  lemma {:induction false} EncodeSeparable(cs: seq<char>)
    requires Separable(cs)
    ensures Plain(Utf8.Encode(cs))
    decreases |cs|
  {
    if cs != [] {
      Utf8.EncodeCharBytes(cs[0]);
      EncodeSeparable(cs[1..]);
      var e, h := Utf8.Encode(cs), Utf8.EncodeChar(cs[0]);
      forall k | 0 <= k < |e| ensures !IsSeparator(e[k]) {
        if k < |h| {
          assert e[k] == h[k] && h[k] in h;
        } else {
          assert e[k] == Utf8.Encode(cs[1..])[k - |h|];
        }
      }
    }
  }

  /** The bytes s stand in b at position p. */
  predicate At(b: seq<Byte>, p: nat, s: seq<Byte>)
  {
    p + |s| <= |b| && b[p..p + |s|] == s
  }

  lemma {:induction false} ScanRunStops(b: seq<Byte>, p: nat, q: nat)
    requires p <= q < |b| && IsSeparator(b[q])
    requires forall k :: p <= k < q ==> !IsSeparator(b[k])
    ensures ScanRun(b, p) == Some(q)
    decreases q - p
  {
    if p < q {
      ScanRunStops(b, p + 1, q);
    }
  }

  /** A run as the table holds it: no PSF2_SEQ or PSF2_SEP inside. */
  predicate Plain(part: seq<Byte>)
  {
    forall k :: 0 <= k < |part| ==> !IsSeparator(part[k])
  }

  /** Cutting the bytes of an entry at its separators gives back the runs it was made of. */
  lemma {:induction false} EntryRunsOfBytes(b: seq<Byte>, p: nat, parts: seq<seq<Byte>>)
    requires |parts| >= 1 && forall k :: 0 <= k < |parts| ==> Plain(parts[k])
    requires At(b, p, EntryBytes(parts))
    ensures EntryRuns(b, p) == Some(Split(parts, p + |EntryBytes(parts)|))
    decreases |parts|
  {
    if |parts| == 1 {
      EntryRunsLast(b, p, parts);
    } else {
      EntryRunFirst(b, p, parts);
      PlainTail(parts);
      EntryRunsOfBytes(b, p + |parts[0]| + 1, parts[1..]);
      EntryRunsJoin(b, p, parts);
    }
  }

  /** The first run, then the runs the rest of the entry cuts into, are the runs of the whole entry. */
  lemma EntryRunsJoin(b: seq<Byte>, p: nat, parts: seq<seq<Byte>>)
    requires |parts| >= 2 && Plain(parts[0]) && At(b, p, EntryBytes(parts))
    requires var q := p + |parts[0]| + 1;
      EntryRuns(b, q) == Some(Split(parts[1..], q + |EntryBytes(parts[1..])|))
    ensures EntryRuns(b, p) == Some(Split(parts, p + |EntryBytes(parts)|))
  {
    EntryRunFirst(b, p, parts);
    EntryRunsMore(b, p, parts, p + |EntryBytes(parts)|);
  }

  lemma PlainTail(parts: seq<seq<Byte>>)
    requires |parts| >= 1 && forall k :: 0 <= k < |parts| ==> Plain(parts[k])
    ensures forall k :: 0 <= k < |parts| - 1 ==> Plain(parts[1..][k])
  {
    forall k | 0 <= k < |parts| - 1 ensures Plain(parts[1..][k]) {
      assert parts[1..][k] == parts[k + 1];
    }
  }

  /** An entry of one plain run is that run. */
  lemma EntryRunsLast(b: seq<Byte>, p: nat, parts: seq<seq<Byte>>)
    requires |parts| == 1 && Plain(parts[0]) && At(b, p, EntryBytes(parts))
    ensures EntryRuns(b, p) == Some(Split(parts, p + |EntryBytes(parts)|))
  {
    var e := parts[0];
    assert EntryBytes(parts) == e + [PSF2_SEP] + [];
    EntryRunCut(b, p, e, PSF2_SEP, []);
    EntryRunsStep(b, p, p + |e|);
    assert [e] == parts;
  }

  /** The first of several plain runs is cut at its PSF2_SEQ, and the other runs stand right after it. */
  lemma EntryRunFirst(b: seq<Byte>, p: nat, parts: seq<seq<Byte>>)
    requires |parts| >= 2 && Plain(parts[0]) && At(b, p, EntryBytes(parts))
    ensures ScanRun(b, p) == Some(p + |parts[0]|) && b[p..p + |parts[0]|] == parts[0]
    ensures b[p + |parts[0]|] == PSF2_SEQ && At(b, p + |parts[0]| + 1, EntryBytes(parts[1..]))
    ensures |EntryBytes(parts)| == |parts[0]| + 1 + |EntryBytes(parts[1..])|
  {
    var e, rest := parts[0], EntryBytes(parts[1..]);
    assert EntryBytes(parts) == e + [PSF2_SEQ] + rest;
    EntryRunCut(b, p, e, PSF2_SEQ, rest);
  }

  /** The first run and the runs after its PSF2_SEQ make up the entry. */
  lemma EntryRunsMore(b: seq<Byte>, p: nat, parts: seq<seq<Byte>>, end: nat)
    requires |parts| >= 2
    requires ScanRun(b, p) == Some(p + |parts[0]|) && b[p..p + |parts[0]|] == parts[0]
    requires b[p + |parts[0]|] == PSF2_SEQ
    requires EntryRuns(b, p + |parts[0]| + 1) == Some(Split(parts[1..], end))
    ensures EntryRuns(b, p) == Some(Split(parts, end))
  {
    EntryRunsStep(b, p, p + |parts[0]|);
    assert [parts[0]] + parts[1..] == parts;
  }

  /** A plain run followed by a separator is the first run the walk cuts. */
  lemma EntryRunCut(b: seq<Byte>, p: nat, e: seq<Byte>, sep: Byte, rest: seq<Byte>)
    requires Plain(e) && IsSeparator(sep) && At(b, p, e + [sep] + rest)
    ensures ScanRun(b, p) == Some(p + |e|) && b[p..p + |e|] == e
    ensures b[p + |e|] == sep && At(b, p + |e| + 1, rest)
  {
    var q := p + |e|;
    AtParts(b, p, e, sep, rest);
    forall k | p <= k < q ensures !IsSeparator(b[k]) {
      assert b[k] == b[p..q][k - p] == e[k - p];
    }
    ScanRunStops(b, p, q);
  }

  /** One step of cutting an entry: the run up to the separator at q, then the end or the runs after q. */
  lemma EntryRunsStep(b: seq<Byte>, p: nat, q: nat)
    requires ScanRun(b, p) == Some(q)
    ensures EntryRuns(b, p) ==
      if b[q] == PSF2_SEP then Some(Split([b[p..q]], q + 1))
      else
        match EntryRuns(b, q + 1)
        case None => None
        case Some(rest) => Some(Split([b[p..q]] + rest.parts, rest.end))
  {
  }

  /** Mapping encoded runs one by one maps all their characters in order. */
  lemma {:induction false} MapRunsEncoded(m: map<char, nat>, runs: seq<seq<char>>, i: nat)
    ensures MapRuns(m, EncodeRuns(runs), i) == MapChars(m, Flatten(runs), i)
    decreases |runs|
  {
    if runs != [] {
      var parts := EncodeRuns(runs);
      Utf8.DecodeEncode(runs[0]);
      assert parts[0] == Utf8.Encode(runs[0]);
      var m1 := MapChars(m, runs[0], i);
      assert MapRun(m, parts[0], i) == m1;
      assert parts[1..] == EncodeRuns(runs[1..]);
      MapRunsEncoded(m1, runs[1..], i);
      MapCharsAppend(m, runs[0], Flatten(runs[1..]), i);
    }
  }

  /**
   * An entry written as UTF-8 runs maps every character of every run to its glyph,
   * later runs overwriting earlier ones, and the cursor lands just after it.
   */
  lemma WalkEncodedEntry(b: seq<Byte>, p: nat, i: nat, m: map<char, nat>, runs: seq<seq<char>>)
    requires |runs| >= 1 && forall k :: 0 <= k < |runs| ==> Separable(runs[k])
    requires At(b, p, EntryBytes(EncodeRuns(runs)))
    ensures WalkEntry(b, p, i, m) == Ok(Walked(MapChars(m, Flatten(runs), i), p + |EntryBytes(EncodeRuns(runs))|))
  {
    EncodeRunsPlain(runs);
    WalkEntryOfParts(b, p, i, m, EncodeRuns(runs));
    MapRunsEncoded(m, runs, i);
  }

  /** An entry made of plain runs maps them in order and ends after its PSF2_SEP. */
  lemma WalkEntryOfParts(b: seq<Byte>, p: nat, i: nat, m: map<char, nat>, parts: seq<seq<Byte>>)
    requires |parts| >= 1 && forall k :: 0 <= k < |parts| ==> Plain(parts[k])
    requires At(b, p, EntryBytes(parts))
    ensures WalkEntry(b, p, i, m) == Ok(Walked(MapRuns(m, parts, i), p + |EntryBytes(parts)|))
  {
    EntryRunsOfBytes(b, p, parts);
    WalkEntryRuns(b, p, i, m);
  }

  /** Runs of separable characters encode to plain runs. */
  lemma {:induction false} EncodeRunsPlain(runs: seq<seq<char>>)
    requires forall k :: 0 <= k < |runs| ==> Separable(runs[k])
    ensures forall k :: 0 <= k < |runs| ==> Plain(EncodeRuns(runs)[k])
    decreases |runs|
  {
    if runs != [] {
      var parts, later := EncodeRuns(runs), runs[1..];
      assert forall k :: 0 <= k < |later| ==> later[k] == runs[k + 1];
      EncodeRunsPlain(later);
      EncodeSeparable(runs[0]);
      forall k | 0 <= k < |runs| ensures Plain(parts[k]) {
        if k > 0 {
          assert parts[k] == EncodeRuns(later)[k - 1];
        }
      }
    }
  }

  /** The parts of bytes standing at p stand at their own offsets. */
  lemma AtParts(b: seq<Byte>, p: nat, e: seq<Byte>, sep: Byte, rest: seq<Byte>)
    requires At(b, p, e + [sep] + rest)
    ensures At(b, p, e) && b[p + |e|] == sep && At(b, p + |e| + 1, rest)
  {
    var s := e + [sep] + rest;
    var q := p + |e|;
    assert b[p..q] == b[p..p + |s|][..|e|] == s[..|e|] == e;
    assert b[q] == s[|e|] == sep;
    assert b[q + 1..q + 1 + |rest|] == b[p..p + |s|][|e| + 1..] == s[|e| + 1..] == rest;
  }

  /** "A" and "a" in one entry, split by PSF2_SEQ, both name glyph 3. */
  lemma AliasesShareGlyph()
    ensures WalkEntry([0x41, 0xEF, 0x61, 0xFF], 0, 3, map[]) == Ok(Walked(map['A' := 3, 'a' := 3], 4))
  {
    var runs := [['A'], ['a']];
    assert Utf8.Encode(['A']) == [0x41] && Utf8.Encode(['a']) == [0x61];
    assert EncodeRuns(runs) == [[0x41], [0x61]];
    assert EntryBytes(EncodeRuns(runs)) == [0x41, 0xEF, 0x61, 0xFF];
    var b: seq<Byte> := [0x41, 0xEF, 0x61, 0xFF];
    assert At(b, 0, EntryBytes(EncodeRuns(runs)));
    WalkEncodedEntry(b, 0, 3, map[], runs);
    assert Flatten(runs) == ['A', 'a'];
  }

  /**
   * With PSF2_SEQ at 0xEF, the lead byte of U+FFFD (EF BF BD) splits its own
   * encoding, the tail does not decode and the character is never mapped.
   */
  lemma ReplacementCharacterIsSplit()
    ensures Utf8.Decode([0xEF, 0xBF, 0xBD]) == Some(['\U{FFFD}'])
    ensures WalkEntry([0xEF, 0xBF, 0xBD, 0xFF], 0, 0, map[]) == Ok(Walked(map[], 4))
  {
    var c := '\U{FFFD}';
    Utf8.DecodeEncode([c]);
    assert Utf8.Encode([c]) == Utf8.EncodeChar(c) + Utf8.Encode([]) == [0xEF, 0xBF, 0xBD];
    var b: seq<Byte> := [0xEF, 0xBF, 0xBD, 0xFF];
    assert ScanRun(b, 0) == Some(0);
    assert ScanRun(b, 1) == Some(3) by {
      ScanRunStops(b, 1, 3);
    }
    assert b[1..3] == [0xBF, 0xBD];
    assert Utf8.Decode([0xBF, 0xBD]) == None;
  }

  /** A run that is not UTF-8 (a lone C0) is skipped, and the run after it ("A") is still mapped. */
  lemma BadRunSkipped()
    ensures Utf8.Decode([0xC0]) == None
    ensures WalkEntry([0xC0, 0xEF, 0x41, 0xFF], 0, 7, map[]) == Ok(Walked(map['A' := 7], 4))
  {
    var b: seq<Byte> := [0xC0, 0xEF, 0x41, 0xFF];
    assert Utf8.Decode([0xC0]) == None;
    Utf8.DecodeEncode(['A']);
    assert Utf8.Encode(['A']) == Utf8.EncodeChar('A') + Utf8.Encode([]) == [0x41];
    ScanRunStops(b, 0, 1);
    ScanRunStops(b, 2, 3);
    assert b[0..1] == [0xC0] && b[2..3] == [0x41];
  }

  /**
   * The lead byte 0xEF of U+F000 (EF 80 80) is taken for PSF2_SEQ: the run
   * after it starts with continuation bytes, does not decode, and takes the
   * "A" that follows with it.
   */
  lemma SplitCharDropsRun()
    ensures Utf8.Decode([0xEF, 0x80, 0x80, 0x41]) == Some(['\U{F000}', 'A'])
    ensures WalkEntry([0xEF, 0x80, 0x80, 0x41, 0xFF], 0, 0, map[]) == Ok(Walked(map[], 5))
  {
    var c := '\U{F000}';
    Utf8.DecodeEncode([c, 'A']);
    assert Utf8.Encode([c, 'A']) == Utf8.EncodeChar(c) + Utf8.Encode(['A']);
    assert Utf8.Encode(['A']) == Utf8.EncodeChar('A') + Utf8.Encode([]);
    var b: seq<Byte> := [0xEF, 0x80, 0x80, 0x41, 0xFF];
    assert ScanRun(b, 0) == Some(0);
    ScanRunStops(b, 1, 4);
    assert b[1..4] == [0x80, 0x80, 0x41];
    assert Utf8.Decode([0x80, 0x80, 0x41]) == None;
    assert b[0..0] == [] && Utf8.Decode([]) == Some([]);
  }
}
