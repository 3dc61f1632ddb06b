/** URI-Path options (`src/zephyr_coap_utils.c`): splitting path strings into options, the option
    format of RFC 7252 section 3.1, and the allocation estimate. */
module UriPath {
  import opened Basics

  type Text = seq<Byte>

  const SLASH: Byte := 0x2f
  const NUL: Byte := 0
  const URI_PATH: nat := 11

  // ---------------------------------------------------------------- splitting, as a function

  function TrimLeading(s: Text): Text {
    if s != [] && s[0] == SLASH then TrimLeading(s[1..]) else s
  }

  function DropOneTrailing(s: Text): Text {
    if s != [] && s[|s| - 1] == SLASH then s[..|s| - 1] else s
  }

  /** The position of the first slash, or the length if there is none. */
  function FirstSlash(s: Text): (k: nat)
    ensures k <= |s| && (k < |s| ==> s[k] == SLASH)
    ensures forall i :: 0 <= i < k ==> s[i] != SLASH
  {
    if s == [] || s[0] == SLASH then 0 else FirstSlash(s[1..]) + 1
  }

  /** Cuts at every slash; nothing after the last slash means no last segment. */
  function Cut(s: Text): seq<Text>
    decreases |s|
  {
    var k := FirstSlash(s);
    if k == |s| then (if s == [] then [] else [s]) else [s[..k]] + Cut(s[k + 1..])
  }

  function Segments(path: Text): seq<Text> {
    Cut(TrimLeading(path))
  }

  function Join(segs: seq<Text>): Text {
    if segs == [] then []
    else if |segs| == 1 then segs[0]
    else segs[0] + [SLASH] + Join(segs[1..])
  }

  ghost predicate SlashFree(segs: seq<Text>) {
    forall i :: 0 <= i < |segs| ==> SLASH !in segs[i]
  }

  lemma {:induction false} CutIsSlashFree(s: Text)
    ensures SlashFree(Cut(s))
    decreases |s|
  {
    var k := FirstSlash(s);
    if k == |s| {
      assert s[..k] == s;
    } else {
      CutIsSlashFree(s[k + 1..]);
    }
  }

  lemma JoinCons(a: Text, segs: seq<Text>)
    ensures Join([a] + segs) == if segs == [] then a else a + [SLASH] + Join(segs)
  {
    assert ([a] + segs)[1..] == segs;
  }

  lemma {:induction false} CutIsEmpty(s: Text)
    ensures Cut(s) == [] <==> s == []
  {
  }

  lemma {:induction false} JoinCut(s: Text)
    ensures Join(Cut(s)) == DropOneTrailing(s)
    decreases |s|
  {
    var k := FirstSlash(s);
    if k == |s| {
      assert s[..k] == s;
    } else {
      var first, rest := s[..k], s[k + 1..];
      JoinCut(rest);
      JoinFirst(first, rest);
      DropSplit(s, k);
      assert Cut(s) == [first] + Cut(rest);
    }
  }

  lemma JoinFirst(first: Text, rest: Text)
    requires Join(Cut(rest)) == DropOneTrailing(rest)
    ensures Join([first] + Cut(rest)) == if rest == [] then first else first + [SLASH] + DropOneTrailing(rest)
  {
    CutIsEmpty(rest);
    JoinCons(first, Cut(rest));
  }

  lemma DropSplit(s: Text, k: nat)
    requires k < |s| && s[k] == SLASH
    ensures DropOneTrailing(s)
            == if k + 1 == |s| then s[..k] else s[..k] + [SLASH] + DropOneTrailing(s[k + 1..])
  {
    var rest := s[k + 1..];
    assert s == s[..k] + [SLASH] + rest;
  }

  /** For every path string, joining the emitted segments gives back the path without its leading
      slashes and without one trailing slash, and no segment contains a slash. */
  lemma JoinSegments(path: Text)
    ensures Join(Segments(path)) == DropOneTrailing(TrimLeading(path))
    ensures SlashFree(Segments(path))
  {
    JoinCut(TrimLeading(path));
    CutIsSlashFree(TrimLeading(path));
  }

  /** The other direction: any list of slash-free segments whose first and last are not empty is
      what its joined path is split into. */
  lemma {:induction false} SegmentsJoin(segs: seq<Text>)
    requires SlashFree(segs)
    requires segs != [] ==> segs[0] != [] && segs[|segs| - 1] != []
    ensures Segments(Join(segs)) == segs
  {
    if segs != [] {
      assert segs[0][0] in segs[0];
      assert Join(segs)[0] == segs[0][0];
      CutJoin(segs);
    }
  }

  lemma {:induction false} CutJoin(segs: seq<Text>)
    requires segs != [] && segs[|segs| - 1] != []
    requires SlashFree(segs)
    ensures Cut(Join(segs)) == segs
    decreases |segs|
  {
    var s := Join(segs);
    if |segs| == 1 {
      SlashAfter(s, s[|s|..]);
      assert s + s[|s|..] == s;
    } else {
      var rest := Join(segs[1..]);
      CutJoin(segs[1..]);
      SlashAfter(segs[0], [SLASH] + rest);
      assert s == segs[0] + ([SLASH] + rest);
      assert s[|segs[0]| + 1..] == rest;
      assert s[..|segs[0]|] == segs[0];
    }
  }

  lemma {:induction false} SlashAfter(a: Text, b: Text)
    requires SLASH !in a && (b != [] ==> b[0] == SLASH)
    ensures FirstSlash(a + b) == |a|
    decreases |a|
  {
    if a == [] {
      assert a + b == b;
    } else {
      assert a[0] in a;
      assert (a + b)[1..] == a[1..] + b;
      SlashAfter(a[1..], b);
    }
  }

  // ---------------------------------------------------------------- the option format

  /** The four-bit field for an option delta or length. */
  function Nibble(n: nat): (r: nat)
    ensures r <= 14
  {
    if n < 13 then n else if n < 269 then 13 else 14
  }

  /** The extended bytes for an option delta or length. */
  function Extended(n: nat): seq<Byte>
    requires n < 65805
  {
    if n < 13 then [] else if n < 269 then [n - 13]
    else [(n - 269) / 256, (n - 269) % 256]
  }

  /** RFC 7252 section 3.1, figure 8. */
  function EncodeOption(delta: nat, value: Text): Text
    requires delta < 65805 && |value| < 65805
  {
    [Nibble(delta) * 16 + Nibble(|value|)] + Extended(delta) + Extended(|value|) + value
  }

  function DecodeExtended(nibble: nat, bytes: Text): Option<(nat, Text)> {
    if nibble < 13 then Some((nibble, bytes))
    else if nibble == 13 && |bytes| >= 1 then
      var n: nat := bytes[0] as int + 13;
      Some((n, bytes[1..]))
    else if nibble == 14 && |bytes| >= 2 then
      var n: nat := bytes[0] as int * 256 + bytes[1] as int + 269;
      Some((n, bytes[2..]))
    else None
  }

  /** One option read from the front: its delta, its value, and what follows. */
  function DecodeOption(bytes: Text): Option<(nat, Text, Text)> {
    if bytes == [] then None
    else
      match DecodeExtended(bytes[0] / 16, bytes[1..])
      case None => None
      case Some((delta, afterDelta)) =>
        match DecodeExtended(bytes[0] % 16, afterDelta)
        case None => None
        case Some((len, afterLen)) =>
          if len <= |afterLen| then Some((delta, afterLen[..len], afterLen[len..])) else None
  }

  lemma ExtendedRoundTrip(n: nat, rest: Text)
    requires n < 65805
    ensures DecodeExtended(Nibble(n), Extended(n) + rest) == Some((n, rest))
  {
    assert (Extended(n) + rest)[|Extended(n)|..] == rest;
  }

  lemma OptionRoundTrip(delta: nat, value: Text, rest: Text)
    requires delta < 65805 && |value| < 65805
    ensures DecodeOption(EncodeOption(delta, value) + rest) == Some((delta, value, rest))
  {
    var bytes := EncodeOption(delta, value) + rest;
    var afterDelta := Extended(|value|) + (value + rest);
    assert bytes[1..] == Extended(delta) + afterDelta;
    assert bytes[0] / 16 == Nibble(delta) && bytes[0] % 16 == Nibble(|value|);
    assert DecodeExtended(bytes[0] / 16, bytes[1..]) == Some((delta, afterDelta)) by {
      ExtendedRoundTrip(delta, afterDelta);
    }
    assert DecodeExtended(bytes[0] % 16, afterDelta) == Some((|value|, value + rest)) by {
      ExtendedRoundTrip(|value|, value + rest);
    }
    assert (value + rest)[..|value|] == value && (value + rest)[|value|..] == rest;
  }

  /** Short enough for the option format. */
  ghost predicate Short(segs: seq<Text>) {
    forall i :: 0 <= i < |segs| ==> |segs[i]| < 65805
  }

  /** All segments as URI-Path options, the first after option number `prev`. */
  ghost function EncodePath(prev: nat, segs: seq<Text>): Text
    requires prev <= URI_PATH && Short(segs)
    decreases |segs|
  {
    if segs == [] then []
    else EncodeOption(URI_PATH - prev, segs[0]) + EncodePath(URI_PATH, segs[1..])
  }

  /** Reads `n` options from the front, the first after option number `prev`: their values, if they are
      all URI-Path options. */
  function DecodePath(prev: nat, bytes: Text, n: nat): Option<seq<Text>>
    decreases n
  {
    if n == 0 then Some([])
    else
      match DecodeOption(bytes)
      case None => None
      case Some((delta, value, rest)) =>
        if prev + delta != URI_PATH then None
        else
          match DecodePath(URI_PATH, rest, n - 1)
          case None => None
          case Some(values) => Some([value] + values)
  }

  lemma {:induction false} PathRoundTrip(prev: nat, segs: seq<Text>)
    requires prev <= URI_PATH && Short(segs)
    ensures DecodePath(prev, EncodePath(prev, segs), |segs|) == Some(segs)
    decreases |segs|
  {
    if segs != [] {
      OptionRoundTrip(URI_PATH - prev, segs[0], EncodePath(URI_PATH, segs[1..]));
      PathRoundTrip(URI_PATH, segs[1..]);
      assert [segs[0]] + segs[1..] == segs;
    }
  }

  // ---------------------------------------------------------------- the allocation estimate

  function EstimateOne(len: nat): nat {
    len + len / 13 + 1
  }

  /** `coap_pathv_estimate_alloc_len`. */
  function Estimate(pathv: seq<Text>): nat {
    if pathv == [] then 0 else EstimateOne(|pathv[0]|) + Estimate(pathv[1..])
  }

  /** The segments of all strings of a path vector. */
  function AllSegments(pathv: seq<Text>): seq<Text> {
    if pathv == [] then [] else Segments(pathv[0]) + AllSegments(pathv[1..])
  }

  lemma ExtendedIsCovered(n: nat)
    requires n < 65805
    ensures |Extended(n)| <= n / 13
  {
  }

  lemma EstimateSum(a: nat, b: nat)
    ensures EstimateOne(a) + EstimateOne(b) <= EstimateOne(a + 1 + b)
  {
  }

  /** The exact size of a non-empty cut path is at most its length, plus one byte per thirteen, plus
      one: each slash pays for the header byte of the segment after it. */
  lemma {:induction false} CutSize(prev: nat, s: Text)
    requires prev <= URI_PATH && |s| < 65805
    ensures Short(Cut(s))
    ensures |EncodePath(prev, Cut(s))| <= EstimateOne(|s|)
    ensures s == [] ==> |EncodePath(prev, Cut(s))| == 0
    decreases |s|
  {
    var k := FirstSlash(s);
    if k < |s| {
      var first, rest := s[..k], s[k + 1..];
      CutSize(URI_PATH, rest);
      EncodePathCons(prev, first, Cut(rest));
      EstimateSum(k, |rest|);
      assert Cut(s) == [first] + Cut(rest) && |s| == |first| + 1 + |rest|;
    } else if s != [] {
      EncodePathCons(prev, s, []);
    }
  }

  lemma EncodePathCons(prev: nat, seg: Text, segs: seq<Text>)
    requires prev <= URI_PATH && Short(segs) && |seg| < 65805
    ensures Short([seg] + segs)
    ensures EncodePath(prev, [seg] + segs) == EncodeOption(URI_PATH - prev, seg) + EncodePath(URI_PATH, segs)
    ensures |EncodePath(prev, [seg] + segs)| <= EstimateOne(|seg|) + |EncodePath(URI_PATH, segs)|
  {
    ExtendedIsCovered(|seg|);
    assert ([seg] + segs)[1..] == segs;
  }

  lemma {:induction false} TrimmedIsShorter(s: Text)
    ensures |TrimLeading(s)| <= |s|
  {
    if s != [] && s[0] == SLASH {
      TrimmedIsShorter(s[1..]);
    }
  }

  lemma {:induction false} EncodePathConcat(prev: nat, a: seq<Text>, b: seq<Text>)
    requires prev <= URI_PATH
    requires Short(a)
    requires Short(b)
    ensures Short(a + b)
    ensures EncodePath(prev, a + b) == EncodePath(prev, a) + EncodePath(if a == [] then prev else URI_PATH, b)
    decreases |a|
  {
    if a == [] {
      assert a + b == b;
    } else {
      EncodePathConcat(URI_PATH, a[1..], b);
      assert (a + b)[1..] == a[1..] + b;
    }
  }

  /** For every path vector, the estimate is at least the exact encoded size of all URI-Path options
      the splitter emits, whichever of the options 0..11 comes before them. */
  lemma {:induction false} EstimateCovers(prev: nat, pathv: seq<Text>)
    requires prev <= URI_PATH && Short(pathv)
    ensures Short(AllSegments(pathv))
    ensures |EncodePath(prev, AllSegments(pathv))| <= Estimate(pathv)
    decreases |pathv|
  {
    if pathv != [] {
      var s := TrimLeading(pathv[0]);
      TrimmedIsShorter(pathv[0]);
      CutSize(prev, s);
      var next := if Cut(s) == [] then prev else URI_PATH;
      EstimateCovers(next, pathv[1..]);
      EncodePathConcat(prev, Cut(s), AllSegments(pathv[1..]));
      assert |s| / 13 <= |pathv[0]| / 13;
    }
  }

  /** For one short segment the estimate is exact. */
  lemma EstimateIsExactForShort(s: Text)
    requires 0 < |s| < 26 && SLASH !in s
    ensures AllSegments([s]) == [s] && Short([s])
    ensures |EncodePath(URI_PATH, [s])| == Estimate([s])
  {
    CutNoSlash(s);
    assert s[0] in s;
    assert [s][1..] == [] && Segments(s) == [s];
  }

  lemma SegmentsSize(prev: nat, s: Text)
    requires prev <= URI_PATH && |s| < 65805
    ensures Short(Segments(s))
    ensures |EncodePath(prev, Segments(s))| <= EstimateOne(|s|)
  {
    TrimmedIsShorter(s);
    CutSize(prev, TrimLeading(s));
    assert |TrimLeading(s)| / 13 <= |s| / 13;
  }

  // ---------------------------------------------------------------- the source's loops

  /** What the option area of a packet holds: its bytes, the last option number, the values added. */
  datatype Contents = Contents(bytes: Text, prev: nat, segs: seq<Text>)

  ghost predicate WellFormed(c: Contents) {
    c.prev <= URI_PATH
  }

  ghost function With(c: Contents, value: Text): Contents
    requires WellFormed(c) && |value| < 65805
  {
    Contents(c.bytes + EncodeOption(URI_PATH - c.prev, value), URI_PATH, c.segs + [value])
  }

  /** The option area of a CoAP packet: `room` bytes, filled from the front. */
  class Packet {
    const room: nat
    var bytes: Text
    var prev: nat
    ghost var segs: seq<Text>

    ghost function Now(): Contents
      reads this
    {
      Contents(bytes, prev, segs)
    }

    ghost predicate Valid()
      reads this
    {
      WellFormed(Now()) && |bytes| <= room
    }

    constructor (size: nat, previous: nat)
      requires previous <= URI_PATH
      ensures Valid() && room == size && Now() == Contents([], previous, [])
    {
      room, prev, bytes, segs := size, previous, [], [];
    }

    /** The library's `coap_packet_append_option` for a URI-Path option: refused without room. */
    method AppendOption(value: Text) returns (ok: bool)
      requires Valid() && |value| < 65805
      modifies this
      ensures Valid()
      ensures ok <==> |With(old(Now()), value).bytes| <= room
      ensures Now() == if ok then With(old(Now()), value) else old(Now())
    {
      var option := EncodeOption(URI_PATH - prev, value);
      ok := |bytes| + |option| <= room;
      if ok {
        bytes, prev, segs := bytes + option, URI_PATH, segs + [value];
      }
    }
  }

  /** The C string at the front of `mem`: everything before the first NUL. */
  function StringAt(mem: Text): (s: Text)
    requires NUL in mem
    ensures |s| < |mem| && s == mem[..|s|] && NUL !in s && mem[|s|] == NUL
  {
    if mem[0] == NUL then []
    else
      var s := [mem[0]] + StringAt(mem[1..]);
      assert s == mem[..|s|];
      s
  }

  /** Appending options one by one, up to the first that does not fit into `room` bytes. */
  ghost function AppendAll(room: nat, c: Contents, segs: seq<Text>): (r: (Contents, bool))
    requires WellFormed(c) && Short(segs)
    ensures WellFormed(r.0)
    decreases |segs|
  {
    if segs == [] then (c, true)
    else if |With(c, segs[0]).bytes| > room then (c, false)
    else AppendAll(room, With(c, segs[0]), segs[1..])
  }

  /** As many of the options as fit are in the packet, in order, in the option format; the first one
      missing does not fit. */
  ghost predicate Appended(room: nat, c: Contents, segs: seq<Text>, n: nat, after: Contents)
    requires WellFormed(c) && Short(segs)
  {
    && n <= |segs|
    && after.segs == c.segs + segs[..n]
    && after.bytes == c.bytes + EncodePath(c.prev, segs[..n])
    && after.prev == (if n == 0 then c.prev else URI_PATH)
    && (n < |segs| ==> |With(after, segs[n]).bytes| > room)
  }

  lemma AppendedCons(room: nat, c: Contents, seg: Text, segs: seq<Text>, n: nat, after: Contents)
    requires WellFormed(c) && Short(segs) && |seg| < 65805
    requires Appended(room, With(c, seg), segs, n, after)
    ensures Short([seg] + segs) && Appended(room, c, [seg] + segs, n + 1, after)
  {
    var whole := [seg] + segs;
    assert whole[..n + 1] == [seg] + segs[..n];
    EncodePathCons(c.prev, seg, segs[..n]);
    Associative(c.bytes, EncodeOption(URI_PATH - c.prev, seg), EncodePath(URI_PATH, segs[..n]));
    Associative(c.segs, [seg], segs[..n]);
  }

  /** What appending one by one comes to, whether or not all options fit. */
  lemma {:induction false} AppendAllForm(room: nat, c: Contents, segs: seq<Text>)
    requires WellFormed(c) && Short(segs)
    ensures exists n: nat :: Appended(room, c, segs, n, AppendAll(room, c, segs).0)
                        && (AppendAll(room, c, segs).1 <==> n == |segs|)
    decreases |segs|
  {
    var (after, ok) := AppendAll(room, c, segs);
    if segs == [] || |With(c, segs[0]).bytes| > room {
      assert Appended(room, c, segs, 0, after);
    } else {
      AppendAllForm(room, With(c, segs[0]), segs[1..]);
      var n: nat :| Appended(room, With(c, segs[0]), segs[1..], n, after) && (ok <==> n == |segs| - 1);
      AppendedCons(room, c, segs[0], segs[1..], n, after);
      assert [segs[0]] + segs[1..] == segs;
      assert Appended(room, c, segs, n + 1, after);
    }
  }

  /** Appending one list after another, the second only if all of the first fit. */
  lemma {:induction false} AppendAllConcat(room: nat, c: Contents, a: seq<Text>, b: seq<Text>)
    requires WellFormed(c) && Short(a) && Short(b)
    ensures Short(a + b)
    ensures var (mid, ok) := AppendAll(room, c, a);
            AppendAll(room, c, a + b) == if ok then AppendAll(room, mid, b) else (mid, false)
    decreases |a|
  {
    if a == [] {
      assert a + b == b;
    } else {
      assert (a + b)[1..] == a[1..] + b;
      if |With(c, a[0]).bytes| <= room {
        AppendAllConcat(room, With(c, a[0]), a[1..], b);
      }
    }
  }

  /** With room for all of them, all are appended. */
  lemma {:induction false} AppendAllFits(room: nat, c: Contents, segs: seq<Text>)
    requires WellFormed(c) && Short(segs)
    requires |c.bytes| + |EncodePath(c.prev, segs)| <= room
    ensures AppendAll(room, c, segs)
            == (Contents(c.bytes + EncodePath(c.prev, segs), if segs == [] then c.prev else URI_PATH,
                         c.segs + segs), true)
    decreases |segs|
  {
    if segs == [] {
      assert c.bytes + [] == c.bytes && c.segs + [] == c.segs;
    } else {
      var option, rest := EncodeOption(URI_PATH - c.prev, segs[0]), EncodePath(URI_PATH, segs[1..]);
      assert EncodePath(c.prev, segs) == option + rest;
      AppendAllFits(room, With(c, segs[0]), segs[1..]);
      Associative(c.bytes, option, rest);
      Associative(c.segs, [segs[0]], segs[1..]);
      assert [segs[0]] + segs[1..] == segs;
    }
  }

  lemma FirstSlashIs(s: Text, k: nat)
    requires k <= |s| && (k < |s| ==> s[k] == SLASH) && forall i :: 0 <= i < k ==> s[i] != SLASH
    ensures FirstSlash(s) == k
  {
  }

  lemma CutAtSlash(s: Text, k: nat)
    requires k < |s| && SLASH !in s[..k] && s[k] == SLASH
    ensures Cut(s) == [s[..k]] + Cut(s[k + 1..])
  {
    forall i | 0 <= i < k ensures s[i] != SLASH {
      assert s[..k][i] == s[i];
    }
    FirstSlashIs(s, k);
  }

  lemma CutNoSlash(s: Text)
    requires SLASH !in s
    ensures Cut(s) == if s == [] then [] else [s]
  {
    FirstSlashIs(s, |s|);
  }

  /** Slashes skipped one by one are the ones `TrimLeading` drops. */
  lemma {:induction false} TrimSkips(s: Text, n: nat)
    requires n <= |s| && (forall i :: 0 <= i < n ==> s[i] == SLASH) && (n < |s| ==> s[n] != SLASH)
    ensures TrimLeading(s) == s[n..]
    decreases n
  {
    if n > 0 {
      TrimSkips(s[1..], n - 1);
      assert s[1..][n - 1..] == s[n..];
    }
  }

  /** The part of the C string at the front of `mem` that lies before `end`. */
  function Bounded(mem: Text, end: nat): (s: Text)
    requires NUL in mem
    ensures |s| < |mem| && s == mem[..|s|] && NUL !in s
    ensures |s| == end || (|s| < end && mem[|s|] == NUL)
    ensures forall i :: 0 <= i < |s| ==> s[i] == mem[i] && mem[i] != NUL
  {
    var path := StringAt(mem);
    if end < |path| then path[..end] else path
  }

  /** The segments not yet appended when the source's `begin` is at this position. */
  function Remaining(path: Text, begin: nat): seq<Text> {
    if begin <= |path| then Cut(path[begin..]) else []
  }

  /** No slash between `begin` and `p`; both run past the end only together. */
  ghost predicate Scanning(path: Text, begin: nat, p: nat) {
    && begin <= p
    && (if begin <= |path| then p <= |path| && SLASH !in path[begin..p] else begin == p)
  }

  lemma ScanStart(path: Text, begin: nat)
    requires forall i :: 0 <= i < begin && i < |path| ==> path[i] == SLASH
    requires begin < |path| ==> path[begin] != SLASH
    ensures Scanning(path, begin, begin) && Remaining(path, begin) == Segments(path)
  {
    TrimSkips(path, if begin <= |path| then begin else |path|);
    if begin > |path| {
      assert path[|path|..] == [];
    }
  }

  /** A slash at `p` completes the next segment. */
  lemma ScanSlash(path: Text, begin: nat, p: nat)
    requires Scanning(path, begin, p) && p < |path| && path[p] == SLASH
    ensures Remaining(path, begin) == [path[begin..p]] + Remaining(path, p + 1)
    ensures Scanning(path, p + 1, p + 1)
  {
    var s := path[begin..];
    assert s[..p - begin] == path[begin..p] && s[p - begin] == SLASH;
    CutAtSlash(s, p - begin);
    assert s[p - begin + 1..] == path[p + 1..];
  }

  lemma ScanOther(path: Text, begin: nat, p: nat)
    requires Scanning(path, begin, p) && p < |path| && path[p] != SLASH
    ensures Scanning(path, begin, p + 1)
  {
    assert path[begin..p + 1] == path[begin..p] + [path[p]];
  }

  lemma ScanEnd(path: Text, begin: nat, p: nat)
    requires Scanning(path, begin, p) && p >= |path|
    ensures if begin == p then Remaining(path, begin) == []
            else p == |path| && Remaining(path, begin) == [path[begin..p]]
  {
    if begin <= |path| {
      assert path[begin..] == path[begin..p];
      CutNoSlash(path[begin..]);
    }
  }

  lemma {:induction false} RemainingIsShort(path: Text, begin: nat)
    requires |path| < 65805
    ensures Short(Remaining(path, begin))
  {
    if begin <= |path| {
      CutSize(0, path[begin..]);
    }
  }

  lemma SlashIsNotLast(mem: Text, p: nat)
    requires NUL in mem && p < |mem|
    requires mem[p] != NUL && (p < |StringAt(mem)| || forall i :: 0 <= i < p ==> mem[i] == SLASH)
    ensures p + 1 < |mem|
  {
    var n :| 0 <= n < |mem| && mem[n] == NUL;
  }

  /** The trimming loop; like the source it stops at the terminator, not at `end`. */
  method SkipSlashes(mem: Text) returns (begin: nat)
    requires NUL in mem
    ensures begin < |mem| && mem[begin] != SLASH
    ensures forall i :: 0 <= i < begin ==> mem[i] == SLASH
  {
    begin := 0;
    while mem[begin] == SLASH
      invariant begin < |mem|
      invariant forall i :: 0 <= i < begin ==> mem[i] == SLASH
      decreases |mem| - begin
    {
      SlashIsNotLast(mem, begin);
      begin := begin + 1;
    }
  }

  /** The loop's invariant: appending what remains to what is there leads to `goal`. */
  ghost predicate Splitting(room: nat, goal: (Contents, bool), path: Text, begin: nat, p: nat, now: Contents) {
    && WellFormed(now) && |path| < 65805 && Scanning(path, begin, p)
    && Short(Remaining(path, begin))
    && AppendAll(room, now, Remaining(path, begin)) == goal
  }

  /** The first append of the source: the segment that ends at the slash at `p`. */
  lemma SplittingSlash(room: nat, goal: (Contents, bool), path: Text, begin: nat, p: nat, now: Contents)
    requires Splitting(room, goal, path, begin, p, now) && p < |path| && path[p] == SLASH
    ensures begin <= p
    ensures var next := With(now, path[begin..p]);
            if |next.bytes| <= room then Splitting(room, goal, path, p + 1, p + 1, next)
            else goal == (now, false)
  {
    ScanSlash(path, begin, p);
    RemainingIsShort(path, p + 1);
    assert Remaining(path, begin)[1..] == Remaining(path, p + 1);
  }

  /** The end of the source's function: the last segment, unless it is empty. */
  lemma SplittingEnd(room: nat, goal: (Contents, bool), path: Text, begin: nat, p: nat, now: Contents)
    requires Splitting(room, goal, path, begin, p, now) && p >= |path|
    ensures begin <= p
    ensures if begin == p then goal == (now, true)
            else
              && p == |path|
              && var next := With(now, path[begin..p]);
                 goal == if |next.bytes| <= room then (next, true) else (now, false)
  {
    ScanEnd(path, begin, p);
    if begin != p {
      var next := With(now, path[begin..p]);
      assert Remaining(path, begin)[1..] == [];
      assert AppendAll(room, next, []) == (next, true);
    }
  }

  /** What the loop relies on: `path` is what it may read, and it is inside `mem`. */
  ghost predicate Reading(mem: Text, end: nat, path: Text, begin: nat, p: nat) {
    && begin <= p < |mem| && |path| < |mem|
    && (|path| == end || (|path| < end && mem[|path|] == NUL))
    && (forall i :: 0 <= i < |path| ==> path[i] == mem[i] && mem[i] != NUL)
    && (p <= |path| || (begin == p && forall i :: 0 <= i < p ==> mem[i] == SLASH))
  }

  /** The loop's guard, in terms of the path: it stops exactly at its end. */
  lemma AtPath(mem: Text, end: nat, path: Text, begin: nat, p: nat)
    requires Reading(mem, end, path, begin, p)
    ensures p < end && mem[p] != NUL <==> p < |path|
    ensures p <= |path| ==> mem[begin..p] == path[begin..p]
    ensures p < |path| ==> mem[p] == path[p]
    ensures p < |path| ==> Reading(mem, end, path, begin, p + 1) && Reading(mem, end, path, p + 1, p + 1)
  {
  }

  /** The body of the splitter's loop; `first` is where the next segment begins. */
  method ScanOne(packet: Packet, mem: Text, end: nat, begin: nat, p: nat, ghost path: Text,
                 ghost goal: (Contents, bool))
      returns (ok: bool, first: nat)
    requires packet.Valid() && Reading(mem, end, path, begin, p) && p < |path|
    requires Splitting(packet.room, goal, path, begin, p, packet.Now())
    modifies packet
    ensures packet.Valid()
    ensures ok ==> Reading(mem, end, path, first, p + 1)
                   && Splitting(packet.room, goal, path, first, p + 1, packet.Now())
    ensures !ok ==> goal == (packet.Now(), false)
  {
    AtPath(mem, end, path, begin, p);
    ok, first := true, begin;
    if mem[p] == SLASH {
      SplittingSlash(packet.room, goal, path, begin, p, packet.Now());
      ok := packet.AppendOption(mem[begin..p]);
      first := p + 1;
    } else {
      ScanOther(path, begin, p);
    }
  }

  /** The end of the splitter. */
  method ScanLast(packet: Packet, mem: Text, end: nat, begin: nat, p: nat, ghost path: Text,
                  ghost goal: (Contents, bool))
      returns (ok: bool)
    requires packet.Valid() && Reading(mem, end, path, begin, p) && p >= |path|
    requires Splitting(packet.room, goal, path, begin, p, packet.Now())
    modifies packet
    ensures packet.Valid() && (packet.Now(), ok) == goal
  {
    AtPath(mem, end, path, begin, p);
    SplittingEnd(packet.room, goal, path, begin, p, packet.Now());
    if begin == p {
      return true;
    }
    ok := packet.AppendOption(mem[begin..p]);
  }

  /** The loop of the splitter and what follows it. */
  method AppendSegments(packet: Packet, mem: Text, end: nat, start: nat, ghost path: Text,
                        ghost goal: (Contents, bool))
      returns (ok: bool)
    requires packet.Valid() && Reading(mem, end, path, start, start)
    requires Splitting(packet.room, goal, path, start, start, packet.Now())
    modifies packet
    ensures packet.Valid() && (packet.Now(), ok) == goal
  {
    var begin: nat := start;
    var p: nat := start;
    while p < end && mem[p] != NUL
      invariant packet.Valid() && Reading(mem, end, path, begin, p)
      invariant Splitting(packet.room, goal, path, begin, p, packet.Now())
      decreases |mem| - p
    {
      AtPath(mem, end, path, begin, p);
      ok, begin := ScanOne(packet, mem, end, begin, p, path, goal);
      if !ok {
        return;
      }
      p := p + 1;
    }
    AtPath(mem, end, path, begin, p);
    ok := ScanLast(packet, mem, end, begin, p, path, goal);
  }

  /** `coap_packet_append_uri_path_from_string_range` with `begin` at the front of `mem` and `end`
      any position (far beyond the string for a NUL-terminated path). */
  method AppendFromStringRange(packet: Packet, mem: Text, end: nat) returns (ok: bool)
    requires packet.Valid() && NUL in mem && |mem| < 65805
    modifies packet
    ensures packet.Valid()
    ensures Short(Segments(Bounded(mem, end)))
    ensures (packet.Now(), ok) == AppendAll(packet.room, old(packet.Now()), Segments(Bounded(mem, end)))
  {
    ghost var path := Bounded(mem, end);
    SegmentsSize(0, path);
    var begin := SkipSlashes(mem);
    ScanStart(path, begin);
    ok := AppendSegments(packet, mem, end, begin, path,
                         AppendAll(packet.room, packet.Now(), Segments(path)));
  }

  /** The C strings of a path vector: each with its terminating NUL. */
  ghost predicate CStrings(pathv: seq<Text>) {
    forall i :: 0 <= i < |pathv| ==> NUL !in pathv[i] && |pathv[i]| + 1 < 65805
  }

  lemma {:induction false} StringAtTerminated(s: Text)
    requires NUL !in s
    ensures NUL in s + [NUL] && StringAt(s + [NUL]) == s
  {
    assert (s + [NUL])[|s|] == NUL;
    if s != [] {
      assert s[0] in s;
      assert (s + [NUL])[1..] == s[1..] + [NUL];
      StringAtTerminated(s[1..]);
    }
  }

  /** `coap_pathv_estimate_alloc_len`. */
  method EstimateAllocLen(pathv: seq<Text>) returns (total: nat)
    ensures total == Estimate(pathv)
  {
    total := 0;
    var i := 0;
    while i < |pathv|
      invariant 0 <= i <= |pathv|
      invariant total + Estimate(pathv[i..]) == Estimate(pathv)
    {
      var pathLen := |pathv[i]|;
      total := total + pathLen + pathLen / 13 + 1;
      i := i + 1;
    }
  }

  lemma AtIndex(pathv: seq<Text>, i: nat)
    requires i < |pathv|
    ensures AllSegments(pathv[i..]) == Segments(pathv[i]) + AllSegments(pathv[i + 1..])
  {
    assert pathv[i..][1..] == pathv[i + 1..];
  }

  /** Appending the strings from index i on leads to `goal`. */
  ghost predicate Leads(pathv: seq<Text>, i: nat, room: nat, now: Contents, goal: (Contents, bool)) {
    && i <= |pathv| && WellFormed(now) && Short(AllSegments(pathv[i..]))
    && AppendAll(room, now, AllSegments(pathv[i..])) == goal
  }

  lemma LeadsNext(pathv: seq<Text>, i: nat, room: nat, now: Contents, goal: (Contents, bool))
    requires CStrings(pathv) && i < |pathv| && Leads(pathv, i, room, now, goal)
    ensures Short(Segments(pathv[i]))
    ensures var (next, ok) := AppendAll(room, now, Segments(pathv[i]));
            if ok then Leads(pathv, i + 1, room, next, goal) else goal == (next, false)
  {
    AtIndex(pathv, i);
    SegmentsSize(0, pathv[i]);
    EstimateCovers(0, pathv[i + 1..]);
    AppendAllConcat(room, now, Segments(pathv[i]), AllSegments(pathv[i + 1..]));
  }

  /** With room for the estimate nothing is refused, and the bytes added decode to exactly the segments
      of the paths. */
  lemma EstimateSuffices(room: nat, c: Contents, pathv: seq<Text>)
    requires WellFormed(c) && Short(pathv) && |c.bytes| + Estimate(pathv) <= room
    ensures Short(AllSegments(pathv))
    ensures var (after, ok) := AppendAll(room, c, AllSegments(pathv));
            && ok && |c.bytes| <= |after.bytes|
            && after.segs == c.segs + AllSegments(pathv)
            && DecodePath(c.prev, after.bytes[|c.bytes|..], |AllSegments(pathv)|) == Some(AllSegments(pathv))
  {
    EstimateCovers(c.prev, pathv);
    AppendAllFits(room, c, AllSegments(pathv));
    PathRoundTrip(c.prev, AllSegments(pathv));
    var encoded := EncodePath(c.prev, AllSegments(pathv));
    assert (c.bytes + encoded)[|c.bytes|..] == encoded;
  }

  /** `coap_packet_append_uri_path_from_pathv`: the segments of all strings are appended one by one, up
      to the first that does not fit, which is reported. With room for the estimate there is none. */
  method AppendFromPathv(packet: Packet, pathv: seq<Text>) returns (ok: bool)
    requires packet.Valid() && CStrings(pathv)
    modifies packet
    ensures packet.Valid()
    ensures Short(AllSegments(pathv))
    ensures (packet.Now(), ok) == AppendAll(packet.room, old(packet.Now()), AllSegments(pathv))
    ensures |old(packet.bytes)| + Estimate(pathv) <= packet.room ==>
              && ok && |old(packet.bytes)| <= |packet.bytes|
              && DecodePath(old(packet.prev), packet.bytes[|old(packet.bytes)|..], |AllSegments(pathv)|)
                 == Some(AllSegments(pathv))
  {
    ghost var e := packet.Now();
    EstimateCovers(0, pathv);
    ghost var goal := AppendAll(packet.room, e, AllSegments(pathv));
    if |e.bytes| + Estimate(pathv) <= packet.room {
      EstimateSuffices(packet.room, e, pathv);
    }
    ok := AppendStrings(packet, pathv, goal);
  }

  /** The loop of the function above. */
  method AppendStrings(packet: Packet, pathv: seq<Text>, ghost goal: (Contents, bool)) returns (ok: bool)
    requires packet.Valid() && CStrings(pathv) && Leads(pathv, 0, packet.room, packet.Now(), goal)
    modifies packet
    ensures packet.Valid() && (packet.Now(), ok) == goal
  {
    var i := 0;
    while i < |pathv|
      invariant packet.Valid() && Leads(pathv, i, packet.room, packet.Now(), goal)
    {
      LeadsNext(pathv, i, packet.room, packet.Now(), goal);
      StringAtTerminated(pathv[i]);
      ok := AppendFromStringRange(packet, pathv[i] + [NUL], |pathv[i]| + 1);
      if !ok {
        return;
      }
      i := i + 1;
    }
    ok := true;
  }
}
