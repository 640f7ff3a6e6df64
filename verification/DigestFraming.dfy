/** `files_digest`: the byte stream that is fed to the hash determines the files it was made
    from. The hash itself is not modelled. */
module DigestFraming {
  import opened Wrappers
  import opened Ordering

  newtype byte = x: int | 0 <= x < 256

  type Bytes = seq<byte>

  const LENGTH_BYTES: nat := 8

  /** The place of the path in path order, its relative name as bytes, and its contents. */
  datatype File = File(path: int, name: Bytes, data: Bytes)

  datatype Entry = Entry(name: Bytes, data: Bytes)

  datatype DigestError = NoFiles | LengthOverflow

  function PathKey(f: File): Key {
    Key(f.path, 0)
  }

  // ---------------------------------------------------------------- little-endian lengths

  function LittleEndian(n: nat, width: nat): (r: Bytes)
    ensures |r| == width
  {
    if width == 0 then [] else [(n % 256) as byte] + LittleEndian(n / 256, width - 1)
  }

  function NumberOf(bytes: Bytes): nat {
    if bytes == [] then 0 else bytes[0] as nat + 256 * NumberOf(bytes[1..])
  }

  function Capacity(width: nat): nat {
    if width == 0 then 1 else 256 * Capacity(width - 1)
  }

  lemma {:induction false} LittleEndianRoundTrip(n: nat, width: nat)
    requires n < Capacity(width)
    ensures NumberOf(LittleEndian(n, width)) == n
  {
    if width > 0 {
      LittleEndianRoundTrip(n / 256, width - 1);
    }
  }

  lemma FirstDigit(b: byte, n: nat)
    ensures (b as nat + 256 * n) % 256 == b as nat && (b as nat + 256 * n) / 256 == n
  {
  }

  lemma {:induction false} NumberRoundTrip(bytes: Bytes)
    ensures NumberOf(bytes) < Capacity(|bytes|)
    ensures LittleEndian(NumberOf(bytes), |bytes|) == bytes
  {
    if bytes != [] {
      var n := NumberOf(bytes[1..]);
      NumberRoundTrip(bytes[1..]);
      FirstDigit(bytes[0], n);
      assert LittleEndian(NumberOf(bytes), |bytes|) == [bytes[0]] + LittleEndian(n, |bytes| - 1);
    }
  }

  // ---------------------------------------------------------------- the stream

  predicate Framable(e: Entry) {
    |e.name| < Capacity(LENGTH_BYTES) && |e.data| < Capacity(LENGTH_BYTES)
  }

  function Frame(bytes: Bytes): Bytes {
    LittleEndian(|bytes|, LENGTH_BYTES) + bytes
  }

  function Stream(entries: seq<Entry>): Bytes {
    if entries == [] then [] else
    Stream(entries[..|entries| - 1]) + (Frame(entries[|entries| - 1].name) + Frame(entries[|entries| - 1].data))
  }

  /** Volatile JSON files are hashed in normal form, all others as they are. */
  function Payload(f: File, normalized: set<Bytes>, normalForm: Bytes -> Bytes): Bytes {
    if f.name in normalized then normalForm(f.data) else f.data
  }

  function Contents(files: seq<File>, normalized: set<Bytes>, normalForm: Bytes -> Bytes): (r: seq<Entry>)
    ensures |r| == |files|
  {
    seq(|files|, i requires 0 <= i < |files| => Entry(files[i].name, Payload(files[i], normalized, normalForm)))
  }

  class Digest {
    var fed: Bytes

    constructor ()
      ensures fed == []
    {
      fed := [];
    }

    method Update(bytes: Bytes)
      modifies this
      ensures fed == old(fed) + bytes
    {
      fed := fed + bytes;
    }
  }

  lemma StreamSnoc(entries: seq<Entry>, e: Entry)
    ensures Stream(entries + [e]) == Stream(entries) + (Frame(e.name) + Frame(e.data))
  {
    assert (entries + [e])[..|entries|] == entries;
  }

  lemma EmptyStream()
    ensures Stream([]) == []
  {
  }

  /** Feed one file: name and contents, each after its length. */
  method FeedFile(digest: Digest, name: Bytes, data: Bytes) returns (ok: bool)
    modifies digest
    ensures ok <==> Framable(Entry(name, data))
    ensures ok ==> digest.fed == old(digest.fed) + (Frame(name) + Frame(data))
  {
    hide Capacity, LittleEndian;
    if |name| >= Capacity(LENGTH_BYTES) {
      return false;
    }
    digest.Update(LittleEndian(|name|, LENGTH_BYTES));
    digest.Update(name);
    if |data| >= Capacity(LENGTH_BYTES) {
      return false;
    }
    digest.Update(LittleEndian(|data|, LENGTH_BYTES));
    digest.Update(data);
    return true;
  }

  ghost predicate AllFramable(entries: seq<Entry>) {
    forall i | 0 <= i < |entries| :: Framable(entries[i])
  }

  method FeedAll(digest: Digest, sorted: seq<File>, normalized: set<Bytes>, normalForm: Bytes -> Bytes)
    returns (ok: bool)
    requires digest.fed == []
    modifies digest
    ensures ok <==> AllFramable(Contents(sorted, normalized, normalForm))
    ensures ok ==> digest.fed == Stream(Contents(sorted, normalized, normalForm))
  {
    ghost var entries := Contents(sorted, normalized, normalForm);
    EmptyStream();
    hide Framable, Frame, Stream, Payload;
    for i := 0 to |sorted|
      invariant digest.fed == Stream(entries[..i])
      invariant AllFramable(entries[..i])
    {
      assert entries[..i + 1] == entries[..i] + [entries[i]];
      StreamSnoc(entries[..i], entries[i]);
      var fed := FeedFile(digest, sorted[i].name, Payload(sorted[i], normalized, normalForm));
      if !fed {
        return false;
      }
    }
    assert entries[..|sorted|] == entries;
    return true;
  }

  /** The bytes that are fed for the files in this order: of each the length of its name as
      eight bytes, the lowest first, the name, the length of what is hashed, and that. */
  ghost function Spelled(files: seq<File>, normalized: set<Bytes>, normalForm: Bytes -> Bytes): Bytes {
    if files == [] then [] else
    var f := files[0];
    var data := if f.name in normalized then normalForm(f.data) else f.data;
    EightBytes(|f.name|) + f.name + EightBytes(|data|) + data + Spelled(files[1..], normalized, normalForm)
  }

  ghost function EightBytes(n: nat): Bytes {
    [(n % 256) as byte, (n / 256 % 256) as byte, (n / 256 / 256 % 256) as byte, (n / 256 / 256 / 256 % 256) as byte,
     (n / 256 / 256 / 256 / 256 % 256) as byte, (n / 256 / 256 / 256 / 256 / 256 % 256) as byte,
     (n / 256 / 256 / 256 / 256 / 256 / 256 % 256) as byte,
     (n / 256 / 256 / 256 / 256 / 256 / 256 / 256 % 256) as byte]
  }

  /** A length that eight bytes can hold. */
  ghost predicate Fits(n: nat) {
    n < 0x1_0000_0000_0000_0000
  }

  ghost predicate FileFits(f: File, normalized: set<Bytes>, normalForm: Bytes -> Bytes) {
    Fits(|f.name|) && Fits(if f.name in normalized then |normalForm(f.data)| else |f.data|)
  }

  ghost predicate PathsAscend(files: seq<File>) {
    forall i, j | 0 <= i < j < |files| :: files[i].path <= files[j].path
  }

  lemma EightBytesSpelled(n: nat)
    ensures LittleEndian(n, LENGTH_BYTES) == EightBytes(n)
  {
    var a, b := n / 256, n / 256 / 256;
    var c, d := b / 256, b / 256 / 256;
    var e, f := d / 256, d / 256 / 256;
    assert LittleEndian(f, 2) == [(f % 256) as byte, (f / 256 % 256) as byte];
    assert LittleEndian(e, 3) == [(e % 256) as byte] + LittleEndian(f, 2);
    assert LittleEndian(d, 4) == [(d % 256) as byte] + LittleEndian(e, 3);
    assert LittleEndian(c, 5) == [(c % 256) as byte] + LittleEndian(d, 4);
    assert LittleEndian(b, 6) == [(b % 256) as byte] + LittleEndian(c, 5);
    assert LittleEndian(a, 7) == [(a % 256) as byte] + LittleEndian(b, 6);
    assert LittleEndian(n, 8) == [(n % 256) as byte] + LittleEndian(a, 7);
  }

  lemma CapacityIsEightBytes()
    ensures Capacity(LENGTH_BYTES) == 0x1_0000_0000_0000_0000
  {
    assert Capacity(4) == 0x1_0000_0000;
  }

  lemma {:induction false} StreamIsSpelled(files: seq<File>, normalized: set<Bytes>, normalForm: Bytes -> Bytes)
    ensures Stream(Contents(files, normalized, normalForm)) == Spelled(files, normalized, normalForm)
  {
    if files == [] {
      assert Contents(files, normalized, normalForm) == [];
    } else {
      var f, rest := files[0], files[1..];
      var data := if f.name in normalized then normalForm(f.data) else f.data;
      assert Contents(files, normalized, normalForm) == [Entry(f.name, data)] + Contents(rest, normalized, normalForm);
      StreamIsSpelled(rest, normalized, normalForm);
      StreamCons(Entry(f.name, data), Contents(rest, normalized, normalForm));
      EightBytesSpelled(|f.name|);
      EightBytesSpelled(|data|);
      assert Frame(f.name) == EightBytes(|f.name|) + f.name && Frame(data) == EightBytes(|data|) + data;
      hide EightBytes, Frame, Stream, Contents, LittleEndian;
      Regroup(EightBytes(|f.name|), f.name, EightBytes(|data|), data, Spelled(rest, normalized, normalForm));
    }
  }

  lemma Regroup(a: Bytes, b: Bytes, c: Bytes, d: Bytes, e: Bytes)
    ensures (a + b) + ((c + d) + e) == a + b + c + d + e
  {
  }

  lemma FramableSpelled(files: seq<File>, sorted: seq<File>, normalized: set<Bytes>, normalForm: Bytes -> Bytes)
    requires Permuted(sorted, files)
    ensures AllFramable(Contents(sorted, normalized, normalForm)) <==>
            forall f | f in files :: FileFits(f, normalized, normalForm)
  {
    var entries := Contents(sorted, normalized, normalForm);
    CapacityIsEightBytes();
    PermutedLength(sorted, files);
    assert forall i | 0 <= i < |sorted| :: Framable(entries[i]) <==> FileFits(sorted[i], normalized, normalForm);
    hide Framable, FileFits, Capacity;
    if AllFramable(entries) {
      forall f | f in files ensures FileFits(f, normalized, normalForm) {
        var i :| 0 <= i < |sorted| && sorted[i] == f;
        assert Framable(entries[i]);
      }
    }
  }

  lemma SortedByPath(files: seq<File>)
    ensures PathsAscend(StableSort(files, PathKey))
  {
    StableSortSorts(files, PathKey);
    var sorted := StableSort(files, PathKey);
    hide StableSort;
    forall i, j | 0 <= i < j < |sorted| ensures sorted[i].path <= sorted[j].path {
      assert Le(PathKey(sorted[i]), PathKey(sorted[j]));
    }
  }

  /** A listing of two files: the lower path comes first, however they are listed. */
  lemma TwoFilesSpelled(low: File, high: File, normalized: set<Bytes>, normalForm: Bytes -> Bytes)
    requires low.path < high.path && low.name !in normalized && high.name !in normalized
    ensures Stream(Contents(StableSort([low, high], PathKey), normalized, normalForm))
         == Stream(Contents(StableSort([high, low], PathKey), normalized, normalForm))
         == EightBytes(|low.name|) + low.name + EightBytes(|low.data|) + low.data
            + EightBytes(|high.name|) + high.name + EightBytes(|high.data|) + high.data
  {
    InOrder(low, high);
    hide StableSort, PathKey, EightBytes, Contents, Stream;
    StreamIsSpelled([low, high], normalized, normalForm);
    OneSpelled(low, [high], normalized, normalForm);
    OneSpelled(high, [], normalized, normalForm);
    assert [low] + [high] == [low, high] && [high] + [] == [high];
    Appended(EightBytes(|low.name|) + low.name + EightBytes(|low.data|) + low.data,
             EightBytes(|high.name|), high.name, EightBytes(|high.data|), high.data);
  }

  lemma OneSpelled(f: File, rest: seq<File>, normalized: set<Bytes>, normalForm: Bytes -> Bytes)
    requires f.name !in normalized
    ensures Spelled([f] + rest, normalized, normalForm)
         == EightBytes(|f.name|) + f.name + EightBytes(|f.data|) + f.data + Spelled(rest, normalized, normalForm)
    ensures Spelled([], normalized, normalForm) == []
  {
    assert ([f] + rest)[1..] == rest;
  }

  lemma InOrder(low: File, high: File)
    requires low.path < high.path
    ensures StableSort([low, high], PathKey) == [low, high] == StableSort([high, low], PathKey)
  {
    assert StableSort([high], PathKey) == [high] && StableSort([low], PathKey) == [low];
    assert [low, high][1..] == [high] && [high, low][1..] == [low];
  }

  lemma Appended(p: Bytes, a: Bytes, b: Bytes, c: Bytes, d: Bytes)
    ensures p + (a + b + c + d + []) == p + a + b + c + d
  {
  }

  /** The hash is fed the files by ascending path. It is refused if there are none, or if a
      length does not fit its eight bytes. */
  method FilesDigest(files: seq<File>, normalized: set<Bytes>, normalForm: Bytes -> Bytes)
    returns (r: Result<Bytes, DigestError>)
    ensures files == [] ==> r == Failure(NoFiles)
    ensures files != [] && !(forall f | f in files :: FileFits(f, normalized, normalForm)) ==>
              r == Failure(LengthOverflow)
    ensures files != [] && (forall f | f in files :: FileFits(f, normalized, normalForm)) ==>
              && r == Success(Stream(Contents(StableSort(files, PathKey), normalized, normalForm)))
              && exists sorted :: Permuted(sorted, files) && PathsAscend(sorted)
                               && r.value == Spelled(sorted, normalized, normalForm)
  {
    var digest := new Digest();
    if files == [] {
      return Failure(NoFiles);
    }
    hide *;
    ghost var sorted := StableSort(files, PathKey);
    SortedByPath(files);
    FramableSpelled(files, sorted, normalized, normalForm);
    StreamIsSpelled(sorted, normalized, normalForm);
    var fed := FeedAll(digest, StableSort(files, PathKey), normalized, normalForm);
    if !fed {
      return Failure(LengthOverflow);
    }
    assert Permuted(sorted, files) && PathsAscend(sorted);
    return Success(digest.fed);
  }

  // ---------------------------------------------------------------- decoding

  /** Take one frame off the front: its bytes and what follows. */
  function Unframe(s: Bytes): (r: Option<(Bytes, Bytes)>)
    ensures r.Some? ==> |r.value.1| < |s|
  {
    if |s| < LENGTH_BYTES then None else
    var n := NumberOf(s[..LENGTH_BYTES]);
    if |s| - LENGTH_BYTES < n then None
    else Some((s[LENGTH_BYTES..LENGTH_BYTES + n], s[LENGTH_BYTES + n..]))
  }

  function Decode(s: Bytes): Option<seq<Entry>>
    decreases |s|
  {
    if s == [] then Some([]) else
    match Unframe(s)
    case None => None
    case Some((name, afterName)) =>
      match Unframe(afterName)
      case None => None
      case Some((data, rest)) =>
        match Decode(rest)
        case None => None
        case Some(entries) => Some([Entry(name, data)] + entries)
  }

  lemma UnframeFrame(bytes: Bytes, rest: Bytes)
    requires |bytes| < Capacity(LENGTH_BYTES)
    ensures Unframe(Frame(bytes) + rest) == Some((bytes, rest))
  {
    var s := Frame(bytes) + rest;
    LittleEndianRoundTrip(|bytes|, LENGTH_BYTES);
    assert s[..LENGTH_BYTES] == LittleEndian(|bytes|, LENGTH_BYTES);
    assert s[LENGTH_BYTES..LENGTH_BYTES + |bytes|] == bytes;
    assert s[LENGTH_BYTES + |bytes|..] == rest;
  }

  lemma FrameUnframe(s: Bytes)
    requires Unframe(s).Some?
    ensures Frame(Unframe(s).value.0) + Unframe(s).value.1 == s
    ensures |Unframe(s).value.0| < Capacity(LENGTH_BYTES)
  {
    var n := NumberOf(s[..LENGTH_BYTES]);
    NumberRoundTrip(s[..LENGTH_BYTES]);
    hide NumberOf, LittleEndian, Capacity;
    assert s == s[..LENGTH_BYTES] + s[LENGTH_BYTES..LENGTH_BYTES + n] + s[LENGTH_BYTES + n..];
  }

  lemma {:induction false} StreamCons(e: Entry, entries: seq<Entry>)
    ensures Stream([e] + entries) == Frame(e.name) + (Frame(e.data) + Stream(entries))
  {
    hide *;
    if entries == [] {
      EmptyStream();
      StreamSnoc([], e);
      assert [] + [e] == [e] + entries;
    } else {
      var front, last := entries[..|entries| - 1], entries[|entries| - 1];
      StreamCons(e, front);
      StreamSnoc(front, last);
      StreamSnoc([e] + front, last);
      assert [e] + entries == [e] + front + [last];
      assert entries == front + [last];
      Associate(Frame(e.name), Frame(e.data), Stream(front), Frame(last.name) + Frame(last.data));
    }
  }

  lemma Associate(a: Bytes, b: Bytes, c: Bytes, d: Bytes)
    ensures (a + (b + c)) + d == a + (b + (c + d))
  {
  }

  /** The decoder inverts the framing of every list of entries whose lengths fit. */
  lemma {:induction false} DecodeStream(entries: seq<Entry>)
    requires AllFramable(entries)
    ensures Decode(Stream(entries)) == Some(entries)
  {
    if entries != [] {
      var e, rest := entries[0], entries[1..];
      assert entries == [e] + rest;
      assert Framable(e);
      StreamCons(e, rest);
      hide Stream, Frame, Unframe;
      UnframeFrame(e.name, Frame(e.data) + Stream(rest));
      UnframeFrame(e.data, Stream(rest));
      FrameNotEmpty(e.name);
      DecodeStream(rest);
    }
  }

  lemma FrameNotEmpty(bytes: Bytes)
    ensures |Frame(bytes)| > 0
  {
  }

  /** What a decodable stream starts with. */
  lemma DecodeHead(s: Bytes) returns (e: Entry, rest: Bytes)
    requires s != [] && Decode(s).Some?
    ensures |rest| < |s| && Framable(e) && s == Frame(e.name) + (Frame(e.data) + rest)
    ensures Decode(rest).Some? && Decode(s).value == [e] + Decode(rest).value
  {
    var (name, afterName) := Unframe(s).value;
    var (data, r) := Unframe(afterName).value;
    e, rest := Entry(name, data), r;
    assert Decode(s).value == [e] + Decode(rest).value;
    hide Frame, Unframe, Decode;
    FrameUnframe(s);
    FrameUnframe(afterName);
  }

  lemma FramableCons(e: Entry, entries: seq<Entry>)
    requires Framable(e) && AllFramable(entries)
    ensures AllFramable([e] + entries)
  {
    hide Framable;
  }

  /** And it accepts nothing else: what it decodes is framed back to the same stream. */
  lemma {:induction false} StreamDecode(s: Bytes)
    requires Decode(s).Some?
    ensures Stream(Decode(s).value) == s
    ensures AllFramable(Decode(s).value)
    decreases |s|
  {
    if s == [] {
      assert Decode(s).value == [];
    } else {
      hide *;
      var e, rest := DecodeHead(s);
      StreamDecode(rest);
      StreamCons(e, Decode(rest).value);
      FramableCons(e, Decode(rest).value);
    }
  }

  /** Equal streams come from equal lists of (name, content) pairs. */
  lemma StreamIsInjective(a: seq<Entry>, b: seq<Entry>)
    requires AllFramable(a) && AllFramable(b)
    requires Stream(a) == Stream(b)
    ensures a == b
  {
    DecodeStream(a);
    DecodeStream(b);
  }

  /** When two listings give the same stream: the files match one to one in path order, with
      the same names, and with the same contents or, where a file is normalised, the same
      normal form. */
  lemma SameStreamExactly(a: seq<File>, b: seq<File>, normalized: set<Bytes>, normalForm: Bytes -> Bytes)
    requires AllFramable(Contents(a, normalized, normalForm)) && AllFramable(Contents(b, normalized, normalForm))
    ensures Stream(Contents(a, normalized, normalForm)) == Stream(Contents(b, normalized, normalForm)) <==>
            |a| == |b| && forall i | 0 <= i < |a| ::
              && a[i].name == b[i].name
              && (a[i].name !in normalized ==> a[i].data == b[i].data)
              && (a[i].name in normalized ==> normalForm(a[i].data) == normalForm(b[i].data))
  {
    var x, y := Contents(a, normalized, normalForm), Contents(b, normalized, normalForm);
    hide Stream, Framable;
    assert |x| == |a| && |y| == |b|;
    if Stream(x) == Stream(y) {
      StreamIsInjective(x, y);
      forall i | 0 <= i < |a| ensures a[i].name == b[i].name
        && Payload(a[i], normalized, normalForm) == Payload(b[i], normalized, normalForm)
      {
        assert x[i] == y[i];
      }
    } else if |a| == |b| {
      assert x != y;
      var i :| 0 <= i < |a| && x[i] != y[i];
      assert a[i].name != b[i].name || Payload(a[i], normalized, normalForm) != Payload(b[i], normalized, normalForm);
    }
  }

  /** The order in which the files are listed does not reach the stream, even if a file is
      listed more than once: a path has one content. */
  lemma StreamForgetsListing(a: seq<File>, b: seq<File>, normalized: set<Bytes>, normalForm: Bytes -> Bytes)
    requires Permuted(a, b) && KeyDetermines(a, PathKey)
    ensures Stream(Contents(StableSort(a, PathKey), normalized, normalForm))
         == Stream(Contents(StableSort(b, PathKey), normalized, normalForm))
  {
    SortForgetsTies(a, b, PathKey);
  }
}
