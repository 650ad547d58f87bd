/** The time-zone container: a writer that stores equal files once, and a reader that follows the
    documented layout. */
module TzData {
  import opened Options

  newtype byte = x: int | 0 <= x < 256

  type Bytes = seq<byte>

  /** A name and the bytes of its zone file. */
  datatype Zone = Zone(name: seq<nat>, data: Bytes)

  // -------------------------------------------------------------- encodings

  const MAGIC: Bytes := [0x56, 0x54, 0x5A, 0x31]  // "VTZ1"

  /** UTF-8 of one code point below 0x110000. */
  function Utf8Of(c: nat): (r: Bytes)
    requires c < 0x11_0000
    ensures |r| >= 1 && (|r| == 1 <==> c < 0x80)
  {
    if c < 0x80 then [c as byte]
    else if c < 0x800 then [(0xC0 + c / 64) as byte, (0x80 + c % 64) as byte]
    else if c < 0x1_0000 then
      [(0xE0 + c / 4096) as byte, (0x80 + c / 64 % 64) as byte, (0x80 + c % 64) as byte]
    else
      [(0xF0 + c / 262144) as byte, (0x80 + c / 4096 % 64) as byte, (0x80 + c / 64 % 64) as byte,
       (0x80 + c % 64) as byte]
  }

  predicate IsText(t: seq<nat>) {
    forall i :: 0 <= i < |t| ==> t[i] < 0x11_0000
  }

  predicate IsAscii(t: seq<nat>) {
    forall i :: 0 <= i < |t| ==> t[i] < 0x80
  }

  function Encode(t: seq<nat>): Bytes
    requires IsText(t)
  {
    if t == [] then [] else Utf8Of(t[0]) + Encode(t[1..])
  }

  /** A text is as long as its encoding exactly when it is ASCII. */
  lemma {:induction false} EncodeLength(t: seq<nat>)
    requires IsText(t)
    ensures |Encode(t)| >= |t|
    ensures |Encode(t)| == |t| <==> IsAscii(t)
  {
    if t != [] {
      EncodeLength(t[1..]);
      assert IsAscii(t) <==> t[0] < 0x80 && IsAscii(t[1..]) by {
        assert forall i :: 1 <= i < |t| ==> t[1..][i - 1] == t[i];
      }
    }
  }

  /** An ASCII text is written as it is. */
  lemma {:induction false} AsciiIsItself(t: seq<nat>, i: nat)
    requires IsText(t) && IsAscii(t) && i < |t|
    ensures |Encode(t)| == |t| && Encode(t)[i] as nat == t[i]
  {
    EncodeLength(t);
    if i > 0 {
      AsciiIsItself(t[1..], i - 1);
    }
  }

  /** The bytes of each form, and the code that they add up to. */
  ghost predicate IsForm(c: nat, r: Bytes) {
    && (c < 0x80 ==> |r| == 1 && r[0] as nat == c)
    && (0x80 <= c < 0x800 ==> |r| == 2 && 0xC0 <= r[0] < 0xE0 && IsContinuation(r[1])
                              && c == (r[0] as nat - 0xC0) * 64 + (r[1] as nat - 0x80))
    && (0x800 <= c < 0x1_0000 ==>
          && |r| == 3 && 0xE0 <= r[0] < 0xF0 && IsContinuation(r[1]) && IsContinuation(r[2])
          && c == (r[0] as nat - 0xE0) * 4096 + (r[1] as nat - 0x80) * 64 + (r[2] as nat - 0x80))
    && (0x1_0000 <= c ==>
          && |r| == 4 && 0xF0 <= r[0] < 0xF8
          && IsContinuation(r[1]) && IsContinuation(r[2]) && IsContinuation(r[3])
          && c == (r[0] as nat - 0xF0) * 262144 + (r[1] as nat - 0x80) * 4096
                  + (r[2] as nat - 0x80) * 64 + (r[3] as nat - 0x80))
  }

  lemma {:induction false} Utf8Forms(c: nat)
    requires c < 0x11_0000
    ensures IsForm(c, Utf8Of(c))
  {
    if c >= 0x1_0000 {
      FourBytes(c);
    } else if c >= 0x800 {
      ThreeBytes(c);
    }
  }

  lemma {:induction false} ThreeBytes(c: nat)
    requires 0x800 <= c < 0x1_0000
    ensures IsForm(c, Utf8Of(c))
  {
    assert c / 4096 == c / 64 / 64;
  }

  lemma {:induction false} FourBytes(c: nat)
    requires 0x1_0000 <= c < 0x11_0000
    ensures IsForm(c, Utf8Of(c))
  {
    var x, y := c / 64, c / 64 / 64;
    assert c / 4096 == y && c / 262144 == y / 64;
    assert c == x * 64 + c % 64 && x == y * 64 + x % 64 && y == y / 64 * 64 + y % 64;
  }

  predicate IsContinuation(b: byte) {
    0x80 <= b < 0xC0
  }

  /** The code at the front and the number of its bytes (section 3 of RFC 3629): the leading byte
      tells the form, and a code in a longer form than it needs is refused. */
  function DecodeOne(b: Bytes): (r: Option<(nat, nat)>)
    ensures r.Some? ==> 1 <= r.value.1 <= |b|
  {
    if b == [] then None
    else if b[0] < 0x80 then Some((b[0] as nat, 1))
    else if 0xC0 <= b[0] < 0xE0 && |b| >= 2 && IsContinuation(b[1]) then
      Shortest((b[0] as nat - 0xC0) * 64 + (b[1] as nat - 0x80), 0x80, 0x800, 2)
    else if 0xE0 <= b[0] < 0xF0 && |b| >= 3 && IsContinuation(b[1]) && IsContinuation(b[2]) then
      Shortest((b[0] as nat - 0xE0) * 4096 + (b[1] as nat - 0x80) * 64 + (b[2] as nat - 0x80), 0x800, 0x1_0000, 3)
    else if 0xF0 <= b[0] < 0xF8 && |b| >= 4 && IsContinuation(b[1]) && IsContinuation(b[2]) && IsContinuation(b[3]) then
      Shortest((b[0] as nat - 0xF0) * 262144 + (b[1] as nat - 0x80) * 4096
               + (b[2] as nat - 0x80) * 64 + (b[3] as nat - 0x80), 0x1_0000, 0x11_0000, 4)
    else None
  }

  function Shortest(c: nat, low: nat, high: nat, length: nat): Option<(nat, nat)> {
    if low <= c < high then Some((c, length)) else None
  }

  function Decode(b: Bytes): Option<seq<nat>>
    decreases |b|
  {
    if b == [] then Some([])
    else
      var first := DecodeOne(b);
      if first.None? then None
      else
        var rest := Decode(b[first.value.1..]);
        if rest.None? then None else Some([first.value.0] + rest.value)
  }

  lemma DecodeOneInverts(c: nat, rest: Bytes)
    requires c < 0x11_0000
    ensures DecodeOne(Utf8Of(c) + rest) == Some((c, |Utf8Of(c)|))
  {
    Utf8Forms(c);
    var u, b := Utf8Of(c), Utf8Of(c) + rest;
    assert forall i :: 0 <= i < |u| ==> b[i] == u[i];
  }

  lemma SixBitsUnique(x: int, y: int, x': int, y': int)
    requires 0 <= y < 64 && 0 <= y' < 64 && x * 64 + y == x' * 64 + y'
    ensures x == x' && y == y'
  {
  }

  /** The payload of a continuation byte. */
  function Low(b: byte): int {
    b as int - 0x80
  }

  lemma {:induction false} FormIsUnique(c: nat, r: Bytes, q: Bytes)
    requires IsForm(c, r) && IsForm(c, q) && c < 0x11_0000
    ensures r == q
  {
    if c >= 0x1_0000 {
      LongFormIsUnique(c, r, q);
    } else if c >= 0x800 {
      var x, y := (r[0] as int - 0xE0) * 64 + Low(r[1]), (q[0] as int - 0xE0) * 64 + Low(q[1]);
      SixBitsUnique(x, Low(r[2]), y, Low(q[2]));
      SixBitsUnique(r[0] as int - 0xE0, Low(r[1]), q[0] as int - 0xE0, Low(q[1]));
    } else if c >= 0x80 {
      SixBitsUnique(r[0] as int - 0xC0, Low(r[1]), q[0] as int - 0xC0, Low(q[1]));
    }
  }

  lemma {:induction false} LongFormIsUnique(c: nat, r: Bytes, q: Bytes)
    requires IsForm(c, r) && IsForm(c, q) && 0x1_0000 <= c < 0x11_0000
    ensures r == q
  {
    var x, y := (r[0] as int - 0xF0) * 64 + Low(r[1]), (q[0] as int - 0xF0) * 64 + Low(q[1]);
    SixBitsUnique(x * 64 + Low(r[2]), Low(r[3]), y * 64 + Low(q[2]), Low(q[3]));
    SixBitsUnique(x, Low(r[2]), y, Low(q[2]));
    SixBitsUnique(r[0] as int - 0xF0, Low(r[1]), q[0] as int - 0xF0, Low(q[1]));
  }

  lemma {:induction false} DecodeOneForm(b: Bytes)
    requires DecodeOne(b).Some?
    ensures DecodeOne(b).value.0 < 0x11_0000 && IsForm(DecodeOne(b).value.0, b[..DecodeOne(b).value.1])
  {
  }

  lemma {:induction false} DecodeOneSound(b: Bytes)
    requires DecodeOne(b).Some?
    ensures var (c, n) := DecodeOne(b).value; c < 0x11_0000 && Utf8Of(c) == b[..n]
  {
    var (c, n) := DecodeOne(b).value;
    DecodeOneForm(b);
    Utf8Forms(c);
    FormIsUnique(c, Utf8Of(c), b[..n]);
  }

  lemma {:induction false} DecodeInverts(t: seq<nat>)
    requires IsText(t)
    ensures Decode(Encode(t)) == Some(t)
  {
    if t != [] {
      var u, rest := Utf8Of(t[0]), Encode(t[1..]);
      DecodeInverts(t[1..]);
      DecodeOneInverts(t[0], rest);
      assert (u + rest)[|u|..] == rest;
      assert t == [t[0]] + t[1..];
    }
  }

  lemma {:induction false} EncodeCons(c: nat, t: seq<nat>, b: Bytes, n: nat)
    requires c < 0x11_0000 && n <= |b| && Utf8Of(c) == b[..n] && IsText(t) && Encode(t) == b[n..]
    ensures IsText([c] + t) && Encode([c] + t) == b
  {
    assert ([c] + t)[1..] == t;
    assert b == b[..n] + b[n..];
  }

  lemma {:induction false} DecodeCons(b: Bytes)
    requires b != [] && Decode(b).Some?
    ensures DecodeOne(b).Some?
    ensures var (c, n) := DecodeOne(b).value;
            Decode(b[n..]).Some? && Decode(b).value == [c] + Decode(b[n..]).value
  {
  }

  lemma {:induction false} DecodeSound(b: Bytes)
    requires Decode(b).Some?
    ensures IsText(Decode(b).value) && Encode(Decode(b).value) == b
    decreases |b|
  {
    if b != [] {
      DecodeCons(b);
      var (c, n) := DecodeOne(b).value;
      DecodeOneSound(b);
      DecodeSound(b[n..]);
      EncodeCons(c, Decode(b[n..]).value, b, n);
    }
  }

  /** A text is what the bytes decode to exactly when they are its encoding: no two texts share one. */
  lemma DecodeExactly(b: Bytes, t: seq<nat>)
    requires IsText(t)
    ensures Decode(b) == Some(t) <==> b == Encode(t)
  {
    DecodeInverts(t);
    if Decode(b) == Some(t) {
      DecodeSound(b);
    }
  }

  const U32: nat := 0x1_0000_0000

  /** Four bytes, most significant first. */
  function BigEndian(v: nat): (r: Bytes)
    requires v < U32
    ensures |r| == 4
  {
    [(v / 256 / 256 / 256) as byte, (v / 256 / 256 % 256) as byte, (v / 256 % 256) as byte, (v % 256) as byte]
  }

  function ReadBigEndian(b: Bytes): nat
    requires |b| == 4
  {
    ((b[0] as nat * 256 + b[1] as nat) * 256 + b[2] as nat) * 256 + b[3] as nat
  }

  lemma BigEndianReadsBack(v: nat)
    requires v < U32
    ensures ReadBigEndian(BigEndian(v)) == v
  {
    var x, y := v / 256, v / 256 / 256;
    assert v == x * 256 + v % 256 && x == y * 256 + x % 256 && y == y / 256 * 256 + y % 256;
  }

  lemma BigEndianDigits(v: nat)
    requires v < U32
    ensures BigEndian(v)[0] as nat == v / 0x100_0000 && BigEndian(v)[1] as nat == v / 0x1_0000 % 0x100
    ensures BigEndian(v)[2] as nat == v / 0x100 % 0x100 && BigEndian(v)[3] as nat == v % 0x100
  {
  }

  // ---------------------------------------------------- the deduplicated blob

  /** The first `n` files end to end. */
  ghost function Concat(files: seq<Bytes>, n: nat): Bytes
    requires n <= |files|
  {
    if n == 0 then [] else Concat(files, n - 1) + files[n - 1]
  }

  lemma {:induction false} ConcatLocal(files: seq<Bytes>, file: Bytes, n: nat)
    requires n <= |files|
    ensures Concat(files + [file], n) == Concat(files, n)
  {
    if n > 0 {
      ConcatLocal(files, file, n - 1);
    }
  }

  ghost predicate Distinct(files: seq<Bytes>) {
    forall i, j :: 0 <= i < j < |files| ==> files[i] != files[j]
  }

  ghost predicate StartsAt(files: seq<Bytes>, offsets: map<Bytes, nat>, i: nat)
    requires i < |files|
  {
    files[i] in offsets && offsets[files[i]] == |Concat(files, i)|
  }

  /** Each file's offset is where it starts. */
  ghost predicate IsStart(files: seq<Bytes>, offsets: map<Bytes, nat>) {
    forall i :: 0 <= i < |files| ==> StartsAt(files, offsets, i)
  }

  /** The blob is the distinct files end to end, in order of appearance: the intervals tile it and
      equal contents share one. */
  ghost predicate IsLayout(files: seq<Bytes>, blob: Bytes, offsets: map<Bytes, nat>) {
    Distinct(files) && blob == Concat(files, |files|) && IsStart(files, offsets) && |offsets| == |files|
  }

  /** The offset of this content finds it, inside the blob. */
  ghost predicate FindsAt(blob: Bytes, offsets: map<Bytes, nat>, data: Bytes)
    requires data in offsets
  {
    offsets[data] + |data| <= |blob| && blob[offsets[data]..offsets[data] + |data|] == data
  }

  ghost predicate Finds(blob: Bytes, offsets: map<Bytes, nat>) {
    forall data :: data in offsets ==> FindsAt(blob, offsets, data)
  }

  /** One of the first `n` zones has this content. */
  ghost predicate IsFileOf(zones: seq<Zone>, n: nat, data: Bytes)
    requires n <= |zones|
  {
    if n == 0 then false else IsFileOf(zones, n - 1, data) || zones[n - 1].data == data
  }

  /** The different contents of the first `n` zones, in order of first appearance. */
  ghost function DistinctFiles(zones: seq<Zone>, n: nat): seq<Bytes>
    requires n <= |zones|
  {
    if n == 0 then []
    else
      var files, data := DistinctFiles(zones, n - 1), zones[n - 1].data;
      if IsFileOf(zones, n - 1, data) then files else files + [data]
  }

  /** Those contents end to end. */
  ghost function BlobOf(zones: seq<Zone>, n: nat): Bytes
    requires n <= |zones|
  {
    Concat(DistinctFiles(zones, n), |DistinctFiles(zones, n)|)
  }

  /** The first zone with this content. */
  ghost function FirstUse(zones: seq<Zone>, n: nat, data: Bytes): (k: nat)
    requires n <= |zones| && IsFileOf(zones, n, data)
    ensures k < n && zones[k].data == data && !IsFileOf(zones, k, data)
  {
    if IsFileOf(zones, n - 1, data) then FirstUse(zones, n - 1, data) else n - 1
  }

  /** Where zone `i`'s content is: behind the contents that appear before its own first appearance. */
  ghost function OffsetOf(zones: seq<Zone>, i: nat): nat
    requires i < |zones|
  {
    |BlobOf(zones, FirstUse(zones, i + 1, zones[i].data))|
  }

  /** The loop's dictionary after `n` zones: it binds their contents, each to the blob's length at
      its first appearance. */
  ghost predicate IsBoundAt(zones: seq<Zone>, n: nat, offsets: map<Bytes, nat>, data: Bytes)
    requires n <= |zones|
  {
    && (data in offsets <==> IsFileOf(zones, n, data))
    && (data in offsets ==> offsets[data] == |BlobOf(zones, FirstUse(zones, n, data))|)
  }

  ghost predicate Binds(zones: seq<Zone>, n: nat, offsets: map<Bytes, nat>)
    requires n <= |zones|
  {
    forall data :: IsBoundAt(zones, n, offsets, data)
  }

  lemma BindsNext(zones: seq<Zone>, n: nat, offsets: map<Bytes, nat>, next: map<Bytes, nat>)
    requires n < |zones| && Binds(zones, n, offsets)
    requires next == if zones[n].data in offsets then offsets else offsets[zones[n].data := |BlobOf(zones, n)|]
    ensures Binds(zones, n + 1, next)
  {
    var after := n + 1;
    forall data ensures IsBoundAt(zones, after, next, data) {
      assert IsBoundAt(zones, n, offsets, data);
    }
  }

  lemma {:induction false} LaterFirstUse(zones: seq<Zone>, i: nat, n: nat)
    requires i < n <= |zones|
    ensures IsFileOf(zones, n, zones[i].data)
    ensures FirstUse(zones, n, zones[i].data) == FirstUse(zones, i + 1, zones[i].data)
  {
    if i < n - 1 {
      LaterFirstUse(zones, i, n - 1);
    }
  }

  /** The offset of every zone's content depends on the zones only. */
  lemma OffsetOfZone(zones: seq<Zone>, offsets: map<Bytes, nat>, i: nat)
    requires i < |zones| && Binds(zones, |zones|, offsets)
    ensures zones[i].data in offsets && offsets[zones[i].data] == OffsetOf(zones, i)
  {
    LaterFirstUse(zones, i, |zones|);
    assert IsBoundAt(zones, |zones|, offsets, zones[i].data);
  }

  /** The first loop: the blob is the different contents end to end, in order of first appearance. */
  method BuildBlob(zones: seq<Zone>) returns (blob: Bytes, offsets: map<Bytes, nat>)
    ensures blob == BlobOf(zones, |zones|)
    ensures Binds(zones, |zones|, offsets)
    ensures IsLayout(DistinctFiles(zones, |zones|), blob, offsets) && Finds(blob, offsets)
  {
    blob, offsets := [], map[];
    for i := 0 to |zones|
      invariant IsLayout(DistinctFiles(zones, i), blob, offsets) && Finds(blob, offsets)
      invariant Binds(zones, i, offsets)
    {
      var data := zones[i].data;
      ghost var before := offsets;
      assert IsBoundAt(zones, i, offsets, data);
      if data !in offsets {
        AppendFile(DistinctFiles(zones, i), blob, offsets, data);
        offsets := offsets[data := |blob|];
        blob := blob + data;
      }
      BindsNext(zones, i, before, offsets);
    }
  }

  lemma AppendFile(files: seq<Bytes>, blob: Bytes, offsets: map<Bytes, nat>, data: Bytes)
    requires IsLayout(files, blob, offsets) && Finds(blob, offsets) && data !in offsets
    ensures IsLayout(files + [data], blob + data, offsets[data := |blob|])
    ensures Finds(blob + data, offsets[data := |blob|])
  {
    AppendStart(files, offsets, data);
    AppendDistinct(files, offsets, data);
    ConcatLocal(files, data, |files|);
    StillFinds(blob, offsets, data);
  }

  lemma AppendStart(files: seq<Bytes>, offsets: map<Bytes, nat>, data: Bytes)
    requires IsStart(files, offsets) && data !in offsets
    ensures IsStart(files + [data], offsets[data := |Concat(files, |files|)|])
  {
    var files', offsets' := files + [data], offsets[data := |Concat(files, |files|)|];
    forall i | 0 <= i < |files'| ensures StartsAt(files', offsets', i) {
      ConcatLocal(files, data, i);
      assert i < |files| ==> StartsAt(files, offsets, i);
    }
  }

  lemma AppendDistinct(files: seq<Bytes>, offsets: map<Bytes, nat>, data: Bytes)
    requires Distinct(files) && IsStart(files, offsets) && data !in offsets
    ensures Distinct(files + [data])
  {
    forall i | 0 <= i < |files| ensures files[i] != data {
      assert StartsAt(files, offsets, i);
    }
  }

  lemma StillFinds(blob: Bytes, offsets: map<Bytes, nat>, data: Bytes)
    requires Finds(blob, offsets)
    ensures Finds(blob + data, offsets[data := |blob|])
  {
    forall d | d in offsets && d != data ensures FindsAt(blob + data, offsets[data := |blob|], d) {
      assert FindsAt(blob, offsets, d);
      SlicePrefix(blob, data, offsets[d], |d|);
    }
    SliceEnd(blob, data);
  }

  lemma SlicePrefix(a: Bytes, b: Bytes, i: nat, n: nat)
    requires i + n <= |a|
    ensures (a + b)[i..i + n] == a[i..i + n]
  {
  }

  lemma SliceEnd(a: Bytes, b: Bytes)
    ensures (a + b)[|a|..|a| + |b|] == b
  {
  }

  /** Two distinct contents never overlap in the blob. */
  lemma FilesDisjoint(files: seq<Bytes>, blob: Bytes, offsets: map<Bytes, nat>, i: nat, j: nat)
    requires IsLayout(files, blob, offsets) && i < j < |files|
    ensures files[i] in offsets && files[j] in offsets
    ensures offsets[files[i]] + |files[i]| <= offsets[files[j]]
    ensures offsets[files[j]] + |files[j]| <= |blob|
  {
    assert StartsAt(files, offsets, i) && StartsAt(files, offsets, j);
    ConcatMonotone(files, i + 1, j);
    ConcatMonotone(files, j + 1, |files|);
  }

  lemma {:induction false} ConcatMonotone(files: seq<Bytes>, i: nat, j: nat)
    requires i <= j <= |files|
    ensures |Concat(files, i)| <= |Concat(files, j)|
  {
    if i < j {
      ConcatMonotone(files, i, j - 1);
    }
  }

  // ------------------------------------------------------------ the index

  /** One index entry as the reader sees it. */
  datatype Entry = Entry(name: Bytes, offset: nat, length: nat)

  predicate ValidEntry(e: Entry) {
    |e.name| < 256 && e.offset < U32 && e.length < U32
  }

  ghost predicate AllValid(entries: seq<Entry>) {
    forall i :: 0 <= i < |entries| ==> ValidEntry(entries[i])
  }

  function WriteEntry(e: Entry): Bytes
    requires ValidEntry(e)
  {
    [|e.name| as byte] + e.name + BigEndian(e.offset) + BigEndian(e.length)
  }

  function WriteIndex(entries: seq<Entry>): Bytes
    requires forall i :: 0 <= i < |entries| ==> ValidEntry(entries[i])
  {
    if entries == [] then [] else WriteEntry(entries[0]) + WriteIndex(entries[1..])
  }

  lemma WriteIndexCons(first: Entry, rest: seq<Entry>)
    requires ValidEntry(first) && AllValid(rest)
    ensures AllValid([first] + rest) && WriteIndex([first] + rest) == WriteEntry(first) + WriteIndex(rest)
  {
    assert ([first] + rest)[1..] == rest;
  }

  /** The index is the entries one after the other. */
  lemma {:induction false} WriteIndexSnoc(entries: seq<Entry>, e: Entry)
    requires AllValid(entries) && ValidEntry(e)
    ensures AllValid(entries + [e]) && WriteIndex([]) == []
    ensures WriteIndex(entries + [e]) == WriteIndex(entries) + WriteEntry(e)
  {
    if entries == [] {
      WriteIndexCons(e, []);
      assert entries + [e] == [e] + [];
    } else {
      var first, rest := entries[0], entries[1..];
      WriteIndexSnoc(rest, e);
      WriteIndexCons(first, rest);
      WriteIndexCons(first, rest + [e]);
      assert entries == [first] + rest && entries + [e] == [first] + (rest + [e]);
    }
  }

  /** The fields of an entry: length byte, name, offset, length. */
  lemma EntryFields(e: Entry)
    requires ValidEntry(e)
    ensures var b, n := WriteEntry(e), |e.name|;
            && |b| == 9 + n && b[0] as nat == n && b[1..1 + n] == e.name
            && b[1 + n..5 + n] == BigEndian(e.offset) && b[5 + n..9 + n] == BigEndian(e.length)
  {
  }

  /** Reads one entry off the front. */
  function ReadEntry(b: Bytes): Option<(Entry, Bytes)> {
    if |b| < 1 || |b| < 9 + b[0] as nat then None
    else
      var n := b[0] as nat;
      Some((Entry(b[1..1 + n], ReadBigEndian(b[1 + n..5 + n]), ReadBigEndian(b[5 + n..9 + n])), b[9 + n..]))
  }

  function ReadIndex(b: Bytes, count: nat): (r: Option<(seq<Entry>, Bytes)>)
    ensures r.Some? ==> |r.value.0| == count
  {
    if count == 0 then Some(([], b))
    else
      var e := ReadEntry(b);
      if e.None? then None
      else
        var rest := ReadIndex(e.value.1, count - 1);
        if rest.None? then None else Some(([e.value.0] + rest.value.0, rest.value.1))
  }

  lemma EntryReadsBack(e: Entry, rest: Bytes)
    requires ValidEntry(e)
    ensures ReadEntry(WriteEntry(e) + rest) == Some((e, rest))
  {
    var b, n := WriteEntry(e) + rest, |e.name|;
    assert b[0] as nat == n;
    assert b[1..1 + n] == e.name;
    assert b[1 + n..5 + n] == BigEndian(e.offset);
    assert b[5 + n..9 + n] == BigEndian(e.length);
    assert b[9 + n..] == rest;
    BigEndianReadsBack(e.offset);
    BigEndianReadsBack(e.length);
  }

  lemma {:induction false} IndexReadsBack(entries: seq<Entry>, rest: Bytes)
    requires forall i :: 0 <= i < |entries| ==> ValidEntry(entries[i])
    ensures ReadIndex(WriteIndex(entries) + rest, |entries|) == Some((entries, rest))
  {
    if entries == [] {
      assert WriteIndex(entries) + rest == rest;
    } else {
      var tail := WriteIndex(entries[1..]) + rest;
      IndexReadsBack(entries[1..], rest);
      EntryReadsBack(entries[0], tail);
      assert WriteIndex(entries) + rest == WriteEntry(entries[0]) + tail;
      ReadIndexStep(WriteIndex(entries) + rest, entries[0], tail, entries[1..], rest);
      assert entries == [entries[0]] + entries[1..];
    }
  }

  lemma ReadIndexStep(b: Bytes, e: Entry, tail: Bytes, entries: seq<Entry>, rest: Bytes)
    requires ReadEntry(b) == Some((e, tail)) && ReadIndex(tail, |entries|) == Some((entries, rest))
    ensures ReadIndex(b, |entries| + 1) == Some(([e] + entries, rest))
  {
  }

  // -------------------------------------------------------------- the container

  /** What a reader gets: the version's bytes and, for each name, the bytes of its file. */
  datatype Container = Container(version: Bytes, zones: seq<(Bytes, Bytes)>)

  /** The slice of the blob that each of the first `n` entries names. */
  function Resolve(entries: seq<Entry>, blob: Bytes, n: nat): Option<seq<(Bytes, Bytes)>>
    requires n <= |entries|
  {
    if n == 0 then Some([])
    else
      var front, e := Resolve(entries, blob, n - 1), entries[n - 1];
      if front.None? || e.offset + e.length > |blob| then None
      else Some(front.value + [(e.name, blob[e.offset..e.offset + e.length])])
  }

  /** Header: the magic, the version with its length byte, the number of names. */
  function Read(b: Bytes): Option<Container> {
    if |b| < 5 || b[..4] != MAGIC || |b| < 9 + b[4] as nat then None
    else
      var n := b[4] as nat;
      var version, count := b[5..5 + n], ReadBigEndian(b[5 + n..9 + n]);
      var index := ReadIndex(b[9 + n..], count);
      if index.None? then None
      else
        var zones := Resolve(index.value.0, index.value.1, count);
        if zones.None? then None else Some(Container(version, zones.value))
  }

  /** The names of the first `n` zones with their files, as they should come back. */
  ghost function Expected(zones: seq<Zone>, n: nat): seq<(Bytes, Bytes)>
    requires n <= |zones| && NamesAreText(zones)
  {
    if n == 0 then [] else Expected(zones, n - 1) + [(Encode(zones[n - 1].name), zones[n - 1].data)]
  }

  predicate NamesAreText(zones: seq<Zone>) {
    forall i :: 0 <= i < |zones| ==> IsText(zones[i].name)
  }

  lemma {:induction false} ResolveLocal(entries: seq<Entry>, e: Entry, blob: Bytes, n: nat)
    requires n <= |entries|
    ensures Resolve(entries + [e], blob, n) == Resolve(entries, blob, n)
  {
    if n > 0 {
      ResolveLocal(entries, e, blob, n - 1);
    }
  }

  /** The index entry of zone `i`. */
  ghost function EntryOf(zones: seq<Zone>, i: nat): Entry
    requires i < |zones| && NamesAreText(zones)
  {
    Entry(Encode(zones[i].name), OffsetOf(zones, i), |zones[i].data|)
  }

  ghost function EntriesOf(zones: seq<Zone>, n: nat): (e: seq<Entry>)
    requires n <= |zones| && NamesAreText(zones)
    ensures |e| == n
  {
    if n == 0 then [] else EntriesOf(zones, n - 1) + [EntryOf(zones, n - 1)]
  }

  lemma {:induction false} EntriesAt(zones: seq<Zone>, n: nat, i: nat)
    requires i < n <= |zones| && NamesAreText(zones)
    ensures EntriesOf(zones, n)[i] == EntryOf(zones, i)
    ensures EntryOf(zones, i) == Entry(Encode(zones[i].name), OffsetOf(zones, i), |zones[i].data|)
  {
    if i < n - 1 {
      EntriesAt(zones, n - 1, i);
    }
  }

  /** Whether every length, count and offset fits its field. */
  ghost predicate FitsFields(version: seq<nat>, zones: seq<Zone>)
    requires NamesAreText(zones)
  {
    && |version| < 256 && |zones| < U32
    && forall i :: 0 <= i < |zones| ==> ValidEntry(EntryOf(zones, i))
  }

  lemma EntriesValid(zones: seq<Zone>)
    requires NamesAreText(zones)
    ensures AllValid(EntriesOf(zones, |zones|)) <==> forall i :: 0 <= i < |zones| ==> ValidEntry(EntryOf(zones, i))
  {
    var entries := EntriesOf(zones, |zones|);
    forall i | 0 <= i < |zones| ensures entries[i] == EntryOf(zones, i) {
      EntriesAt(zones, |zones|, i);
    }
  }

  /** What is written: header, index and blob, each a function of the version and the zones. */
  ghost function ContainerOf(version: seq<nat>, zones: seq<Zone>): Bytes
    requires IsText(version) && NamesAreText(zones) && FitsFields(version, zones)
  {
    EntriesValid(zones);
    Layout(|version|, Encode(version), EntriesOf(zones, |zones|), BlobOf(zones, |zones|))
  }

  /** The entry has the zone's name and finds its content. */
  ghost predicate NamesFile(e: Entry, z: Zone, blob: Bytes)
    requires IsText(z.name)
  {
    e.name == Encode(z.name) && e.offset + e.length <= |blob| && blob[e.offset..e.offset + e.length] == z.data
  }

  lemma ResolveNext(entries: seq<Entry>, e: Entry, z: Zone, blob: Bytes, front: seq<(Bytes, Bytes)>)
    requires Resolve(entries, blob, |entries|) == Some(front) && IsText(z.name) && NamesFile(e, z, blob)
    ensures Resolve(entries + [e], blob, |entries| + 1) == Some(front + [(Encode(z.name), z.data)])
  {
    ResolveLocal(entries, e, blob, |entries|);
    ResolveOneMore(entries + [e], blob, |entries|, z, front);
  }

  lemma ResolveOneMore(entries: seq<Entry>, blob: Bytes, n: nat, z: Zone, front: seq<(Bytes, Bytes)>)
    requires n < |entries| && Resolve(entries, blob, n) == Some(front)
    requires IsText(z.name) && NamesFile(entries[n], z, blob)
    ensures Resolve(entries, blob, n + 1) == Some(front + [(Encode(z.name), z.data)])
  {
  }

  lemma {:induction false} EntriesResolve(zones: seq<Zone>, blob: Bytes, offsets: map<Bytes, nat>, n: nat)
    requires n <= |zones| && NamesAreText(zones) && Binds(zones, |zones|, offsets) && Finds(blob, offsets)
    ensures Resolve(EntriesOf(zones, n), blob, n) == Some(Expected(zones, n))
  {
    if n > 0 {
      EntriesResolve(zones, blob, offsets, n - 1);
      EntryResolves(zones, blob, offsets, n - 1);
      ResolveNext(EntriesOf(zones, n - 1), EntryOf(zones, n - 1), zones[n - 1], blob, Expected(zones, n - 1));
    }
  }

  lemma EntryResolves(zones: seq<Zone>, blob: Bytes, offsets: map<Bytes, nat>, i: nat)
    requires i < |zones| && NamesAreText(zones) && Binds(zones, |zones|, offsets) && Finds(blob, offsets)
    ensures NamesFile(EntryOf(zones, i), zones[i], blob)
  {
    OffsetOfZone(zones, offsets, i);
    assert FindsAt(blob, offsets, zones[i].data);
  }

  /** The second loop: one entry for each name, or None at the first that does not fit. */
  method WriteNames(zones: seq<Zone>, offsets: map<Bytes, nat>) returns (index: Option<Bytes>)
    requires NamesAreText(zones) && Binds(zones, |zones|, offsets)
    ensures index.Some? <==> AllValid(EntriesOf(zones, |zones|))
    ensures index.Some? ==> index.value == WriteIndex(EntriesOf(zones, |zones|))
  {
    var out: Bytes := [];
    for i := 0 to |zones|
      invariant AllValid(EntriesOf(zones, i)) && out == WriteIndex(EntriesOf(zones, i))
    {
      OffsetOfZone(zones, offsets, i);
      var encoded, data := Encode(zones[i].name), zones[i].data;
      if |encoded| >= 256 || offsets[data] >= U32 || |data| >= U32 {
        EntriesAt(zones, |zones|, i);
        assert !ValidEntry(EntriesOf(zones, |zones|)[i]);
        return None;
      }
      WriteIndexSnoc(EntriesOf(zones, i), EntryOf(zones, i));
      out := out + WriteEntry(Entry(encoded, offsets[data], |data|));
    }
    index := Some(out);
  }

  /** Writes the container, or stops where a number does not fit its field. */
  method Write(version: seq<nat>, zones: seq<Zone>) returns (r: Option<Bytes>)
    requires IsText(version) && NamesAreText(zones)
    ensures r.Some? <==> FitsFields(version, zones)
    ensures r.Some? ==> r.value == ContainerOf(version, zones)
  {
    var blob, offsets := BuildBlob(zones);
    if |version| >= 256 || |zones| >= U32 {
      return None;
    }
    var out := MAGIC;
    out := out + ([|version| as byte] + Encode(version));
    out := out + BigEndian(|zones|);
    var index := WriteNames(zones, offsets);
    EntriesValid(zones);
    if index.None? {
      return None;
    }
    out := out + index.value;
    out := out + blob;
    r := Some(out);
  }

  /** What the container is for: a version and named zone files, as text. */
  datatype Database = Database(version: seq<nat>, zones: seq<Zone>)

  function DecodeZones(zones: seq<(Bytes, Bytes)>, n: nat): Option<seq<Zone>>
    requires n <= |zones|
  {
    if n == 0 then Some([])
    else
      var front, name := DecodeZones(zones, n - 1), Decode(zones[n - 1].0);
      if front.None? || name.None? then None else Some(front.value + [Zone(name.value, zones[n - 1].1)])
  }

  function ReadDatabase(b: Bytes): Option<Database> {
    var c := Read(b);
    if c.None? then None
    else
      var version, zones := Decode(c.value.version), DecodeZones(c.value.zones, |c.value.zones|);
      if version.None? || zones.None? then None else Some(Database(version.value, zones.value))
  }

  lemma {:induction false} DecodeZonesLocal(zones: seq<(Bytes, Bytes)>, z: (Bytes, Bytes), n: nat)
    requires n <= |zones|
    ensures DecodeZones(zones + [z], n) == DecodeZones(zones, n)
  {
    if n > 0 {
      DecodeZonesLocal(zones, z, n - 1);
    }
  }

  lemma {:induction false} DecodeNextZone(front: seq<(Bytes, Bytes)>, zones: seq<Zone>, z: Zone)
    requires DecodeZones(front, |front|) == Some(zones) && IsText(z.name)
    ensures DecodeZones(front + [(Encode(z.name), z.data)], |front| + 1) == Some(zones + [z])
  {
    DecodeZonesLocal(front, (Encode(z.name), z.data), |front|);
    DecodeInverts(z.name);
  }

  lemma {:induction false} PrefixNext(zones: seq<Zone>, n: nat)
    requires n < |zones|
    ensures zones[..n] + [zones[n]] == zones[..n + 1]
  {
  }

  lemma {:induction false} NamesDecode(zones: seq<Zone>, n: nat)
    requires n <= |zones| && NamesAreText(zones)
    ensures |Expected(zones, n)| == n && DecodeZones(Expected(zones, n), n) == Some(zones[..n])
  {
    if n > 0 {
      NamesDecode(zones, n - 1);
      PrefixNext(zones, n - 1);
      DecodeNextZone(Expected(zones, n - 1), zones[..n - 1], zones[n - 1]);
    }
  }

  /** Reading what was written gives the version and the names back, each name with its file, if and
      only if the version is ASCII. */
  lemma ReadInvertsWrite(version: seq<nat>, zones: seq<Zone>)
    requires IsText(version) && NamesAreText(zones) && FitsFields(version, zones)
    ensures ReadDatabase(ContainerOf(version, zones)) == Some(Database(version, zones)) <==> IsAscii(version)
  {
    EncodeLength(version);
    if IsAscii(version) {
      AsciiVersionReads(version, zones);
    } else if ReadDatabase(ContainerOf(version, zones)) == Some(Database(version, zones)) {
      EntriesValid(zones);
      VersionLength(|version|, Encode(version), EntriesOf(zones, |zones|), BlobOf(zones, |zones|));
      DecodeExactly(Read(ContainerOf(version, zones)).value.version, version);
    }
  }

  lemma AsciiVersionReads(version: seq<nat>, zones: seq<Zone>)
    requires IsText(version) && NamesAreText(zones) && FitsFields(version, zones) && |Encode(version)| == |version|
    ensures Read(ContainerOf(version, zones)) == Some(Container(Encode(version), Expected(zones, |zones|)))
    ensures ReadDatabase(ContainerOf(version, zones)) == Some(Database(version, zones))
  {
    EntriesValid(zones);
    ContentsResolve(zones);
    ContainerReadsBack(Encode(version), EntriesOf(zones, |zones|), BlobOf(zones, |zones|));
    DecodeInverts(version);
    NamesDecode(zones, |zones|);
    assert zones[..|zones|] == zones;
  }

  /** The fixed fields by position: magic, length byte, version, count, then index and blob. */
  lemma ContainerFields(version: seq<nat>, zones: seq<Zone>)
    requires IsText(version) && NamesAreText(zones) && FitsFields(version, zones)
    ensures AllValid(EntriesOf(zones, |zones|))
    ensures var b, n := ContainerOf(version, zones), |Encode(version)|;
            && |b| >= 9 + n && b[..4] == [0x56, 0x54, 0x5A, 0x31] && b[4] as nat == |version|
            && b[5..5 + n] == Encode(version) && b[5 + n..9 + n] == BigEndian(|zones|)
            && b[9 + n..] == WriteIndex(EntriesOf(zones, |zones|)) + BlobOf(zones, |zones|)
  {
    EntriesValid(zones);
    LayoutFields(|version|, Encode(version), BigEndian(|zones|),
                 WriteIndex(EntriesOf(zones, |zones|)), BlobOf(zones, |zones|), ContainerOf(version, zones));
  }

  lemma LayoutFields(length: nat, version: Bytes, count: Bytes, index: Bytes, blob: Bytes, b: Bytes)
    requires length < 256 && |count| == 4 && b == MAGIC + ([length as byte] + version) + count + index + blob
    ensures var n := |version|;
            && |b| >= 9 + n && b[..4] == MAGIC && b[4] as nat == length
            && b[5..5 + n] == version && b[5 + n..9 + n] == count && b[9 + n..] == index + blob
  {
  }

  lemma ContentsResolve(zones: seq<Zone>)
    requires NamesAreText(zones)
    ensures Resolve(EntriesOf(zones, |zones|), BlobOf(zones, |zones|), |zones|) == Some(Expected(zones, |zones|))
  {
    var offsets := LayoutExists(zones, |zones|);
    EntriesResolve(zones, BlobOf(zones, |zones|), offsets, |zones|);
  }

  /** The dictionary that the first loop builds. */
  lemma {:induction false} LayoutExists(zones: seq<Zone>, n: nat) returns (offsets: map<Bytes, nat>)
    requires n <= |zones|
    ensures Binds(zones, n, offsets) && Finds(BlobOf(zones, n), offsets)
    ensures IsLayout(DistinctFiles(zones, n), BlobOf(zones, n), offsets)
  {
    offsets := map[];
    if n > 0 {
      var before := LayoutExists(zones, n - 1);
      offsets := before;
      var data := zones[n - 1].data;
      assert IsBoundAt(zones, n - 1, before, data);
      if data !in before {
        AppendFile(DistinctFiles(zones, n - 1), BlobOf(zones, n - 1), before, data);
        offsets := before[data := |BlobOf(zones, n - 1)|];
      }
      BindsNext(zones, n - 1, before, offsets);
    }
  }

  /** A version that does not come back: one accented letter and no zones. The container is written,
      but its version takes two bytes where the length byte says one. */
  lemma AccentedVersion(version: seq<nat>)
    requires version == [0xE9]
    ensures IsText(version) && FitsFields(version, []) && Read(ContainerOf(version, [])) == None
  {
    assert Encode(version[1..]) == [];
    var b := ContainerOf(version, []);
    assert b == MAGIC + [1, 0xC3, 0xA9, 0, 0, 0, 0];
  }

  /** The parts of a container in order; `n` is what the version's length byte says. */
  ghost function Layout(n: nat, version: Bytes, entries: seq<Entry>, blob: Bytes): Bytes
    requires n < 256 && |entries| < U32 && forall i :: 0 <= i < |entries| ==> ValidEntry(entries[i])
  {
    MAGIC + ([n as byte] + version) + BigEndian(|entries|) + WriteIndex(entries) + blob
  }

  /** A reader takes the version to be as long as the length byte says. */
  lemma VersionLength(n: nat, version: Bytes, entries: seq<Entry>, blob: Bytes)
    requires n < 256 && |entries| < U32 && forall i :: 0 <= i < |entries| ==> ValidEntry(entries[i])
    ensures var r := Read(Layout(n, version, entries, blob)); r.Some? ==> |r.value.version| == n
  {
    assert Layout(n, version, entries, blob)[4] == n as byte;
  }

  lemma ContainerReadsBack(version: Bytes, entries: seq<Entry>, blob: Bytes)
    requires |version| < 256 && |entries| < U32 && forall i :: 0 <= i < |entries| ==> ValidEntry(entries[i])
    requires Resolve(entries, blob, |entries|).Some?
    ensures Read(Layout(|version|, version, entries, blob)) == Some(Container(version, Resolve(entries, blob, |entries|).value))
  {
    var n, rest := |version|, WriteIndex(entries) + blob;
    var b := Layout(n, version, entries, blob);
    HeaderParts(version, BigEndian(|entries|), rest, b);
    BigEndianReadsBack(|entries|);
    IndexReadsBack(entries, blob);
  }

  lemma HeaderParts(version: Bytes, count: Bytes, rest: Bytes, b: Bytes)
    requires |version| < 256 && |count| == 4 && b == MAGIC + ([|version| as byte] + version) + count + rest
    ensures |b| >= 9 + |version| && b[..4] == MAGIC && b[4] as nat == |version| && b[5..5 + |version|] == version
    ensures b[5 + |version|..9 + |version|] == count && b[9 + |version|..] == rest
  {
  }

  /** Three names of which two share a file, byte for byte. */
  lemma SharedFile(zones: seq<Zone>)
    requires zones == [Zone([0x41], [7, 8]), Zone([0x42], [9]), Zone([0x43], [7, 8])]
    ensures NamesAreText(zones) && FitsFields([0x76], zones)
    ensures ContainerOf([0x76], zones)
            == [0x56, 0x54, 0x5A, 0x31, 1, 0x76, 0, 0, 0, 3]
               + ([1, 0x41, 0, 0, 0, 0, 0, 0, 0, 2]
                  + [1, 0x42, 0, 0, 0, 2, 0, 0, 0, 1]
                  + [1, 0x43, 0, 0, 0, 0, 0, 0, 0, 2])
               + [7, 8, 9]
  {
    ThreeBlobs(zones);
    ThreeEntries(zones);
    EntriesValid(zones);
    OneByteText(0x76);
    LayoutOfThree(EntriesOf(zones, 3));
  }

  lemma LayoutOfThree(entries: seq<Entry>)
    requires entries == [Entry([0x41], 0, 2), Entry([0x42], 2, 1), Entry([0x43], 0, 2)]
    ensures AllValid(entries)
    ensures Layout(1, [0x76], entries, [7, 8, 9])
            == [0x56, 0x54, 0x5A, 0x31, 1, 0x76, 0, 0, 0, 3]
               + ([1, 0x41, 0, 0, 0, 0, 0, 0, 0, 2]
                  + [1, 0x42, 0, 0, 0, 2, 0, 0, 0, 1]
                  + [1, 0x43, 0, 0, 0, 0, 0, 0, 0, 2])
               + [7, 8, 9]
  {
    IndexOfThree(entries);
    HeaderOfThree(MAGIC + ([1] + [0x76]) + BigEndian(3));
    assert Layout(1, [0x76], entries, [7, 8, 9])
           == MAGIC + ([1] + [0x76]) + BigEndian(3) + WriteIndex(entries) + [7, 8, 9];
  }

  lemma HeaderOfThree(header: Bytes)
    requires header == MAGIC + ([1] + [0x76]) + BigEndian(3)
    ensures header == [0x56, 0x54, 0x5A, 0x31, 1, 0x76, 0, 0, 0, 3]
  {
    assert BigEndian(3) == [0, 0, 0, 3];
  }

  lemma ThreeBlobs(zones: seq<Zone>)
    requires zones == [Zone([0x41], [7, 8]), Zone([0x42], [9]), Zone([0x43], [7, 8])]
    ensures BlobOf(zones, 3) == [7, 8, 9]
    ensures OffsetOf(zones, 0) == 0 && OffsetOf(zones, 1) == 2 && OffsetOf(zones, 2) == 0
  {
    var a, b := zones[0].data, zones[1].data;
    assert |a| != |b|;
    FilesOfThree(zones, a, b);
    ConcatOfTwo(a, b);
  }

  lemma FilesOfThree(zones: seq<Zone>, a: Bytes, b: Bytes)
    requires |zones| == 3 && a != b && zones[0].data == a && zones[1].data == b && zones[2].data == a
    ensures DistinctFiles(zones, 0) == [] && DistinctFiles(zones, 1) == [a] && DistinctFiles(zones, 3) == [a, b]
    ensures OffsetOf(zones, 0) == |Concat([], 0)| && OffsetOf(zones, 1) == |Concat([a], 1)|
    ensures OffsetOf(zones, 2) == |Concat([], 0)|
  {
    assert !IsFileOf(zones, 0, a) && IsFileOf(zones, 1, a) && IsFileOf(zones, 2, a);
    assert !IsFileOf(zones, 0, b) && !IsFileOf(zones, 1, b);
    assert DistinctFiles(zones, 0) == [] && DistinctFiles(zones, 1) == [a] && DistinctFiles(zones, 2) == [a, b];
    assert FirstUse(zones, 1, a) == 0 && FirstUse(zones, 2, b) == 1;
    assert FirstUse(zones, 2, a) == 0 && FirstUse(zones, 3, a) == 0;
  }

  lemma ConcatOfTwo(a: Bytes, b: Bytes)
    ensures Concat([], 0) == [] && Concat([a], 1) == a && Concat([a, b], 2) == a + b
  {
    assert Concat([a], 0) == [] && Concat([a, b], 1) == a;
  }

  lemma OneByteText(c: nat)
    requires c < 0x80
    ensures Encode([c]) == [c as byte]
  {
    assert Encode([]) == [];
  }

  lemma ThreeEntries(zones: seq<Zone>)
    requires zones == [Zone([0x41], [7, 8]), Zone([0x42], [9]), Zone([0x43], [7, 8])]
    ensures NamesAreText(zones)
    ensures EntriesOf(zones, 3) == [Entry([0x41], 0, 2), Entry([0x42], 2, 1), Entry([0x43], 0, 2)]
  {
    ThreeBlobs(zones);
    OneByteText(0x41);
    OneByteText(0x42);
    OneByteText(0x43);
    EntriesAt(zones, 3, 0);
    EntriesAt(zones, 3, 1);
    EntriesAt(zones, 3, 2);
  }

  lemma IndexOfThree(entries: seq<Entry>)
    requires entries == [Entry([0x41], 0, 2), Entry([0x42], 2, 1), Entry([0x43], 0, 2)]
    ensures AllValid(entries)
    ensures WriteIndex(entries)
            == [1, 0x41, 0, 0, 0, 0, 0, 0, 0, 2] + [1, 0x42, 0, 0, 0, 2, 0, 0, 0, 1] + [1, 0x43, 0, 0, 0, 0, 0, 0, 0, 2]
  {
    assert entries[1..] == [entries[1], entries[2]] && entries[1..][1..] == [entries[2]];
    assert WriteEntry(entries[0]) == [1, 0x41, 0, 0, 0, 0, 0, 0, 0, 2];
    assert WriteEntry(entries[1]) == [1, 0x42, 0, 0, 0, 2, 0, 0, 0, 1];
    assert WriteEntry(entries[2]) == [1, 0x43, 0, 0, 0, 0, 0, 0, 0, 2];
    assert WriteIndex([entries[2]]) == WriteEntry(entries[2]) + WriteIndex([]);
  }
}
