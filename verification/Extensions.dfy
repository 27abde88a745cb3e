/** The TLV extension block: [total:2][type:1][len:1][value]... */
module Extensions {
  import opened Bytes
  import opened Lists
  import opened Frames

  const EXT_TRACE_CONTEXT: byte := 0x01
  const EXT_COMPRESSION: byte := 0x02
  const EXT_PRIORITY: byte := 0x03
  const EXT_RETRY_OFFSET: byte := 0xF0
  const EXT_ENTRY_HEADER: nat := 2
  const EXT_COMPRESSION_VALUE_LEN: nat := 5
  const ALGO_ZSTD: byte := 1

  const PRIORITY_NORMAL: nat := 2
  const PRIORITY_LOW: nat := 3
  const DEFAULT_PRIORITY: nat := PRIORITY_NORMAL

  /** One decoded entry. */
  datatype Entry = Entry(typ: byte, value: seq<byte>)

  predicate Fits(e: Entry) { |e.value| < 256 }

  predicate AllFit(es: seq<Entry>) { forall i :: 0 <= i < |es| ==> Fits(es[i]) }

  function EncodeEntry(e: Entry): seq<byte>
    requires Fits(e)
  {
    [e.typ, |e.value|] + e.value
  }

  function Encode(es: seq<Entry>): seq<byte>
    requires AllFit(es)
  {
    if es == [] then [] else EncodeEntry(es[0]) + Encode(es[1..])
  }

  /** The block of a list of entries, total-length prefix included. */
  function Block(es: seq<Entry>): seq<byte>
    requires AllFit(es)
  {
    LE(|Encode(es)|, 2) + Encode(es)
  }

  /** The entry bytes of a block, when its length prefix is present and covered. */
  function Body(block: seq<byte>): Option<seq<byte>>
  {
    if |block| < EXT_HEADER_LEN then None
    else
      var total := FromLE(block[..2]);
      if total == 0 || |block| < EXT_HEADER_LEN + total then None
      else Some(block[EXT_HEADER_LEN..EXT_HEADER_LEN + total])
  }

  lemma BodyOfBlock(es: seq<Entry>, rest: seq<byte>)
    requires AllFit(es) && es != [] && |Encode(es)| < U16
    ensures Encode(es) != []
    ensures Body(Block(es) + rest) == Some(Encode(es))
  {
    U16RoundTrip(|Encode(es)|);
    assert (Block(es) + rest)[..2] == LE(|Encode(es)|, 2);
  }

  /** The value FindExtension looks for: the first entry of the type that is not empty. */
  function FirstNonEmpty(es: seq<Entry>, typ: byte): Option<seq<byte>>
  {
    if es == [] then None
    else if es[0].typ == typ && es[0].value != [] then Some(es[0].value)
    else FirstNonEmpty(es[1..], typ)
  }

  /** The scan FindExtension makes over entry bytes, well formed or not. */
  function Scan(src: seq<byte>, typ: byte): Option<seq<byte>>
  {
    if |src| < EXT_ENTRY_HEADER then None
    else
      var l := src[1];
      if l == 0 then Scan(src[2..], typ)
      else if 2 + l > |src| then None
      else if src[0] == typ then Some(src[2..2 + l])
      else Scan(src[2 + l..], typ)
  }

  lemma {:induction false} ScanFindsFirst(es: seq<Entry>, typ: byte)
    requires AllFit(es)
    ensures Scan(Encode(es), typ) == FirstNonEmpty(es, typ)
  {
    if es != [] {
      var src := Encode(es);
      var l := |es[0].value|;
      assert src[2..2 + l] == es[0].value && src[2 + l..] == Encode(es[1..]);
      ScanFindsFirst(es[1..], typ);
    }
  }

  /** FindExtension's loop over offsets. */
  method FindExtension(block: seq<byte>, typ: byte) returns (r: Option<seq<byte>>)
    ensures r == Find(block, typ)
  {
    if |block| < EXT_HEADER_LEN {
      return None;
    }
    var total := FromLE(block[..2]);
    if total <= 0 {
      return None;
    }
    if |block| < EXT_HEADER_LEN + total {
      return None;
    }
    var offset := EXT_HEADER_LEN;
    var end := EXT_HEADER_LEN + total;
    while offset < end
      invariant EXT_HEADER_LEN <= offset <= end
      invariant Scan(block[offset..end], typ) == Find(block, typ)
    {
      ghost var src := block[offset..end];
      if offset + EXT_ENTRY_HEADER > end {
        return None;
      }
      var t, l := block[offset], block[offset + 1];
      var valStart := offset + EXT_ENTRY_HEADER;
      assert src[0] == t && src[1] == l;
      SliceOfSlice(block, offset, end, 2, |src|);
      if l == 0 {
        offset := valStart;
        continue;
      }
      if valStart + l > end {
        return None;
      }
      SliceOfSlice(block, offset, end, 2 + l, |src|);
      SliceOfSlice(block, offset, end, 2, 2 + l);
      if t == typ {
        return Some(block[valStart..valStart + l]);
      }
      offset := valStart + l;
    }
    return None;
  }

  /** FindExtension as a function of the block. */
  function Find(block: seq<byte>, typ: byte): Option<seq<byte>>
  {
    var body := Body(block);
    if body.None? then None else Scan(body.value, typ)
  }

  /** On a well-formed block, whatever follows it, the answer is the first non-empty entry of the type. */
  lemma FindFirstNonEmpty(es: seq<Entry>, rest: seq<byte>, typ: byte)
    requires AllFit(es) && |Encode(es)| < U16
    ensures Find(Block(es) + rest, typ) == FirstNonEmpty(es, typ)
  {
    if es == [] {
      assert (Block(es) + rest)[..2] == LE(0, 2);
      U16RoundTrip(0);
    } else {
      BodyOfBlock(es, rest);
      ScanFindsFirst(es, typ);
    }
  }

  // ---- Stripping -------------------------------------------------------------------------------

  function Without(es: seq<Entry>, typ: byte): (r: seq<Entry>)
    ensures AllFit(es) ==> AllFit(r)
  {
    if es == [] then []
    else if es[0].typ == typ then Without(es[1..], typ)
    else [es[0]] + Without(es[1..], typ)
  }

  /** The input StripExtension survives: an entry that runs past the end must be of the stripped type. */
  predicate Strippable(src: seq<byte>, typ: byte)
  {
    |src| < EXT_ENTRY_HEADER
    || (if 2 + src[1] > |src| then src[0] == typ else Strippable(src[2 + src[1]..], typ))
  }

  /** The bytes StripExtension keeps. */
  function Kept(src: seq<byte>, typ: byte): (k: seq<byte>)
    ensures |k| <= |src|
  {
    if |src| < EXT_ENTRY_HEADER || 2 + src[1] > |src| then []
    else
      var rest := Kept(src[2 + src[1]..], typ);
      if src[0] == typ then rest else src[..2 + src[1]] + rest
  }

  /** What the first pass of StripExtension counts; it trusts every entry's length. */
  function KeepCount(src: seq<byte>, typ: byte): nat
  {
    if |src| < EXT_ENTRY_HEADER then 0
    else
      var l: int := src[1];
      var n: nat := 2 + l;
      (if src[0] == typ then 0 else n) + (if n > |src| then 0 else KeepCount(src[n..], typ))
  }

  lemma {:induction false} CountsKept(src: seq<byte>, typ: byte)
    ensures Strippable(src, typ) ==> KeepCount(src, typ) == |Kept(src, typ)|
    ensures !Strippable(src, typ) ==> KeepCount(src, typ) > 0
  {
    if |src| >= EXT_ENTRY_HEADER && 2 + src[1] <= |src| {
      CountsKept(src[2 + src[1]..], typ);
    }
  }

  /** StripExtension's result when it has one; None is the nil slice. */
  function Strip(block: seq<byte>, typ: byte): Option<seq<byte>>
  {
    var body := Body(block);
    if body.None? then None
    else
      var kept := Kept(body.value, typ);
      if kept == [] then None else Some(LE(|kept|, 2) + kept)
  }

  /** An entry that runs past the end of the block makes the copy panic, unless it is of the stripped type. */
  predicate StripPanics(block: seq<byte>, typ: byte)
  {
    Body(block).Some? && !Strippable(Body(block).value, typ)
  }

  predicate StrippableFrom(src: seq<byte>, off: nat, typ: byte)
  {
    off > |src| || Strippable(src[off..], typ)
  }

  function KeptFrom(src: seq<byte>, off: nat, typ: byte): seq<byte>
  {
    if off > |src| then [] else Kept(src[off..], typ)
  }

  function CountFrom(src: seq<byte>, off: nat, typ: byte): nat
  {
    if off > |src| then 0 else KeepCount(src[off..], typ)
  }

  lemma KeptStep(src: seq<byte>, off: nat, typ: byte)
    requires off + EXT_ENTRY_HEADER <= |src|
    ensures var next := off + EXT_ENTRY_HEADER + src[off + 1];
      && CountFrom(src, off, typ) == (if src[off] == typ then 0 else next - off) + CountFrom(src, next, typ)
      && (next > |src| ==> (StrippableFrom(src, off, typ) <==> src[off] == typ) && KeptFrom(src, off, typ) == [])
      && (next <= |src| ==> (StrippableFrom(src, off, typ) <==> StrippableFrom(src, next, typ)))
      && (next <= |src| ==>
            KeptFrom(src, off, typ) == (if src[off] == typ then [] else src[off..next]) + KeptFrom(src, next, typ))
  {
    var l := src[off + 1];
    if off + 2 + l <= |src| {
      assert src[off..][2 + l..] == src[off + 2 + l..];
      assert src[off..][..2 + l] == src[off..off + 2 + l];
    }
  }

  lemma FromStart(src: seq<byte>, typ: byte)
    ensures StrippableFrom(src, 0, typ) <==> Strippable(src, typ)
    ensures KeptFrom(src, 0, typ) == Kept(src, typ) && CountFrom(src, 0, typ) == KeepCount(src, typ)
  {
    assert src[0..] == src;
  }

  lemma FromEnd(src: seq<byte>, off: nat, typ: byte)
    requires off + EXT_ENTRY_HEADER > |src|
    ensures StrippableFrom(src, off, typ) && KeptFrom(src, off, typ) == [] && CountFrom(src, off, typ) == 0
  {
  }

  /** StripExtension on a block without spare capacity, as the blocks of parsed frames are: count the bytes to keep, then
      copy entry by entry into a fresh block. An entry that runs past the end makes the copy panic. */
  method StripExtension(block: seq<byte>, typ: byte) returns (r: array?<byte>, panics: bool)
    ensures panics <==> StripPanics(block, typ)
    ensures !panics ==> (r == null <==> Strip(block, typ) == None)
    ensures !panics && r != null ==> fresh(r) && r[..] == Strip(block, typ).value
  {
    r, panics := null, false;
    if |block| < EXT_HEADER_LEN {
      return;
    }
    var total := FromLE(block[..2]);
    if total == 0 {
      return;
    }
    if |block| < EXT_HEADER_LEN + total {
      return;
    }
    var src := block[EXT_HEADER_LEN..EXT_HEADER_LEN + total];
    hide Kept, Strippable, KeepCount, KeptFrom, StrippableFrom, CountFrom, LE, FromLE;
    var keepBytes := CountKeep(src, typ);
    CountsKept(src, typ);
    if keepBytes == 0 {
      return;
    }
    r, panics := CopyKept(src, typ, keepBytes);
  }

  /** The first pass. */
  method CountKeep(src: seq<byte>, typ: byte) returns (keepBytes: nat)
    ensures keepBytes == KeepCount(src, typ)
  {
    hide Kept, Strippable, KeepCount, KeptFrom, StrippableFrom, CountFrom;
    var off: nat;
    keepBytes, off := 0, 0;
    FromStart(src, typ);
    while off < |src|
      invariant keepBytes + CountFrom(src, off, typ) == KeepCount(src, typ)
    {
      if off + EXT_ENTRY_HEADER > |src| {
        break;
      }
      var t, l := src[off], src[off + 1];
      KeptStep(src, off, typ);
      if t != typ {
        keepBytes := keepBytes + EXT_ENTRY_HEADER + l;
      }
      off := off + EXT_ENTRY_HEADER + l;
    }
    FromEnd(src, off, typ);
  }

  /** The second pass. */
  method CopyKept(src: seq<byte>, typ: byte, keepBytes: nat) returns (dst: array<byte>, panics: bool)
    requires keepBytes == KeepCount(src, typ)
    ensures fresh(dst)
    ensures panics <==> !Strippable(src, typ)
    ensures !panics ==> dst[..] == LE(keepBytes, 2) + Kept(src, typ)
  {
    hide Kept, Strippable, KeepCount, KeptFrom, StrippableFrom, CountFrom, LE;
    dst := new byte[EXT_HEADER_LEN + keepBytes];
    PutLE(dst, 0, keepBytes, 2);
    var dstOff, srcOff: nat := EXT_HEADER_LEN, 0;
    ghost var done: seq<byte> := [];
    FromStart(src, typ);
    panics := false;
    while srcOff < |src|
      invariant srcOff <= |src| || StrippableFrom(src, srcOff, typ)
      invariant StrippableFrom(src, srcOff, typ) <==> Strippable(src, typ)
      invariant done + KeptFrom(src, srcOff, typ) == Kept(src, typ)
      invariant |done| + CountFrom(src, srcOff, typ) == keepBytes
      invariant dstOff == EXT_HEADER_LEN + |done|
      invariant dst[..dstOff] == LE(keepBytes, 2) + done
    {
      if srcOff + EXT_ENTRY_HEADER > |src| {
        break;
      }
      var t, l := src[srcOff], src[srcOff + 1];
      var next := srcOff + EXT_ENTRY_HEADER + l;
      KeptStep(src, srcOff, typ);
      if t != typ {
        if next > |src| {
          panics := true;
          return;
        }
        var piece := src[srcOff..next];
        CopyInto(dst, dstOff, piece);
        done := done + piece;
        dstOff := dstOff + EXT_ENTRY_HEADER + l;
      }
      if next > |src| {
        FromEnd(src, next, typ);
      }
      srcOff := next;
    }
    FromEnd(src, srcOff, typ);
    CountsKept(src, typ);
    assert dst[..] == dst[..dstOff];
  }

  // ---- Any entry bytes ---------------------------------------------------------------------------

  /** Bytes that hold no whole entry: too few for a header, or fewer than the header claims. */
  predicate Overhang(tail: seq<byte>) { |tail| < EXT_ENTRY_HEADER || 2 + tail[1] > |tail| }

  /** Any bytes are whole entries, and then an overhang. */
  lemma {:induction false} Decompose(src: seq<byte>) returns (es: seq<Entry>, tail: seq<byte>)
    ensures AllFit(es) && Overhang(tail) && src == Encode(es) + tail
  {
    if Overhang(src) {
      es, tail := [], src;
      assert src == [] + src;
    } else {
      var e := Entry(src[0], src[2..2 + src[1]]);
      es, tail := Decompose(src[2 + src[1]..]);
      assert ([e] + es)[1..] == es;
      assert src == EncodeEntry(e) + src[2 + src[1]..];
      assert EncodeEntry(e) + (Encode(es) + tail) == Encode([e] + es) + tail;
      es := [e] + es;
    }
  }

  lemma FirstEntry(e: Entry, more: seq<byte>)
    requires Fits(e)
    ensures var src, n := EncodeEntry(e) + more, 2 + |e.value|;
      src[0] == e.typ && src[1] == |e.value| && src[2..n] == e.value && src[n..] == more && src[..n] == EncodeEntry(e)
  {
  }

  /** On any bytes the lookup sees the whole entries and never the overhang. */
  lemma {:induction false} ScanIgnoresOverhang(es: seq<Entry>, tail: seq<byte>, typ: byte)
    requires AllFit(es) && Overhang(tail)
    ensures Scan(Encode(es) + tail, typ) == FirstNonEmpty(es, typ)
  {
    if es == [] {
      assert Encode(es) + tail == tail;
    } else {
      hide EncodeEntry;
      assert AllFit(es[1..]) && Fits(es[0]);
      ScanIgnoresOverhang(es[1..], tail, typ);
      FirstEntry(es[0], Encode(es[1..]) + tail);
      assert Encode(es) + tail == EncodeEntry(es[0]) + (Encode(es[1..]) + tail);
    }
  }

  /** And stripping keeps exactly the whole entries of other types. */
  lemma {:induction false} KeptIgnoresOverhang(es: seq<Entry>, tail: seq<byte>, typ: byte)
    requires AllFit(es) && Overhang(tail)
    ensures Kept(Encode(es) + tail, typ) == Encode(Without(es, typ))
  {
    if es == [] {
      assert Encode(es) + tail == tail;
    } else {
      hide EncodeEntry;
      assert AllFit(es[1..]) && Fits(es[0]);
      KeptIgnoresOverhang(es[1..], tail, typ);
      FirstEntry(es[0], Encode(es[1..]) + tail);
      assert Encode(es) + tail == EncodeEntry(es[0]) + (Encode(es[1..]) + tail);
      assert ([es[0]] + Without(es[1..], typ))[1..] == Without(es[1..], typ);
    }
  }

  /** Whole entries, then one of another type that claims more bytes than are left. */
  predicate OverrunAt(src: seq<byte>, typ: byte, es: seq<Entry>, t: byte, l: byte, rest: seq<byte>)
  {
    AllFit(es) && src == Encode(es) + ([t, l] + rest) && t != typ && l > |rest|
  }

  ghost predicate Overruns(src: seq<byte>, typ: byte)
  {
    exists es: seq<Entry>, t: byte, l: byte, rest: seq<byte> :: OverrunAt(src, typ, es, t, l, rest)
  }

  lemma {:induction false} FindOverrun(src: seq<byte>, typ: byte) returns (es: seq<Entry>, t: byte, l: byte, rest: seq<byte>)
    requires !Strippable(src, typ)
    ensures OverrunAt(src, typ, es, t, l, rest)
  {
    if 2 + src[1] > |src| {
      es, t, l, rest := [], src[0], src[1], src[2..];
      assert src == [] + ([t, l] + rest);
    } else {
      var e := Entry(src[0], src[2..2 + src[1]]);
      es, t, l, rest := FindOverrun(src[2 + src[1]..], typ);
      assert ([e] + es)[1..] == es;
      assert src == EncodeEntry(e) + src[2 + src[1]..];
      assert EncodeEntry(e) + (Encode(es) + ([t, l] + rest)) == Encode([e] + es) + ([t, l] + rest);
      es := [e] + es;
    }
  }

  lemma {:induction false} OverrunStops(src: seq<byte>, typ: byte, es: seq<Entry>, t: byte, l: byte, rest: seq<byte>)
    requires OverrunAt(src, typ, es, t, l, rest)
    ensures !Strippable(src, typ)
    decreases es
  {
    if es == [] {
      assert src == [t, l] + rest;
    } else {
      var e := es[0];
      assert Fits(e) && AllFit(es[1..]);
      var more := Encode(es[1..]) + ([t, l] + rest);
      assert src == EncodeEntry(e) + more;
      assert src[2 + |e.value|..] == more;
      OverrunStops(more, typ, es[1..], t, l, rest);
    }
  }

  /** Stripping panics exactly when an entry of another type overruns. */
  lemma OverrunsIff(src: seq<byte>, typ: byte)
    ensures Overruns(src, typ) <==> !Strippable(src, typ)
  {
    if !Strippable(src, typ) {
      var es, t, l, rest := FindOverrun(src, typ);
    } else {
      forall es: seq<Entry>, t: byte, l: byte, rest: seq<byte> ensures !OverrunAt(src, typ, es, t, l, rest) {
        if OverrunAt(src, typ, es, t, l, rest) {
          OverrunStops(src, typ, es, t, l, rest);
        }
      }
    }
  }

  /** The entries of a parsed frame's block are all of it behind the length. */
  lemma BodyOfSealed(ext: seq<byte>)
    requires SealedBlock(ext)
    ensures Body(ext) == if |ext| == EXT_HEADER_LEN then None else Some(ext[EXT_HEADER_LEN..])
  {
    hide FromLE;
    assert ext[EXT_HEADER_LEN..|ext|] == ext[EXT_HEADER_LEN..];
  }

  lemma {:induction false} KeptIsFilter(es: seq<Entry>, typ: byte)
    requires AllFit(es)
    ensures Strippable(Encode(es), typ)
    ensures Kept(Encode(es), typ) == Encode(Without(es, typ))
  {
    if es != [] {
      var src := Encode(es);
      var l := |es[0].value|;
      assert src[2 + l..] == Encode(es[1..]) && src[..2 + l] == EncodeEntry(es[0]);
      KeptIsFilter(es[1..], typ);
      if es[0].typ != typ {
        assert Without(es, typ)[1..] == Without(es[1..], typ);
      }
    }
  }

  /** Stripping a well-formed block gives the block of the filtered list, and nil when nothing is left. */
  lemma StripIsFilter(es: seq<Entry>, rest: seq<byte>, typ: byte)
    requires AllFit(es) && |Encode(es)| < U16
    ensures Body(Block(es) + rest).Some? ==> Strippable(Body(Block(es) + rest).value, typ)
    ensures Strip(Block(es) + rest, typ)
      == if Without(es, typ) == [] then None else Some(Block(Without(es, typ)))
  {
    KeptIsFilter(es, typ);
    if es == [] {
      assert (Block(es) + rest)[..2] == LE(0, 2);
      U16RoundTrip(0);
    } else {
      BodyOfBlock(es, rest);
    }
  }

  lemma {:induction false} WithoutLookups(es: seq<Entry>, typ: byte, other: byte)
    ensures FirstNonEmpty(Without(es, typ), other) == if other == typ then None else FirstNonEmpty(es, other)
  {
    if es != [] {
      WithoutLookups(es[1..], typ, other);
      if es[0].typ != typ {
        assert Without(es, typ)[1..] == Without(es[1..], typ);
      }
    }
  }

  /** After stripping, the type is gone and every other lookup answers as before. */
  lemma StripKeepsOtherLookups(es: seq<Entry>, typ: byte, other: byte)
    requires AllFit(es) && |Encode(es)| < U16
    ensures Body(Block(es)).Some? ==> Strippable(Body(Block(es)).value, typ)
    ensures var stripped := Strip(Block(es), typ);
      (if stripped.None? then None else Find(stripped.value, other))
      == if other == typ then None else Find(Block(es), other)
  {
    StripIsFilter(es, [], typ);
    assert Block(es) + [] == Block(es);
    KeptIsFilter(es, typ);
    WithoutLookups(es, typ, other);
    FindFirstNonEmpty(es, [], other);
    var w := Without(es, typ);
    if w != [] {
      FindFirstNonEmpty(w, [], other);
      assert Block(w) + [] == Block(w);
    }
  }

  // ---- Merging the compression entry -------------------------------------------------------------

  function CompressionEntry(uncompressedSize: nat): (e: Entry)
    ensures Fits(e)
  {
    Entry(EXT_COMPRESSION, [ALGO_ZSTD] + LE(uncompressedSize, 4))
  }

  function Merged(existing: seq<byte>, uncompressedSize: nat): seq<byte>
  {
    var body := Body(existing);
    var entries := if body.None? then [] else body.value;
    var all := entries + EncodeEntry(CompressionEntry(uncompressedSize));
    LE(|all|, 2) + all
  }

  /** BuildMergedExtensionsWithCompression: the existing entries followed by one Compression entry. */
  method BuildMergedExtensionsWithCompression(existing: seq<byte>, uncompressedSize: nat) returns (b: array<byte>)
    ensures fresh(b)
    ensures b[..] == Merged(existing, uncompressedSize)
  {
    hide LE, FromLE, EncodeEntry, CompressionEntry;
    var entries: seq<byte> := [];
    if |existing| >= EXT_HEADER_LEN {
      var total := FromLE(existing[..2]);
      if total > 0 && |existing| >= EXT_HEADER_LEN + total {
        entries := existing[EXT_HEADER_LEN..EXT_HEADER_LEN + total];
      }
    }
    var entry := EncodeEntry(CompressionEntry(uncompressedSize));
    var totalEntries := |entries| + |entry|;
    b := new byte[EXT_HEADER_LEN + totalEntries];
    PutLE(b, 0, totalEntries, 2);
    CopyInto(b, 2, entries);
    CopyInto(b, 2 + |entries|, entry);
    assert b[..] == b[..2 + |entries| + |entry|];
    assert LE(totalEntries, 2) + entries + entry == LE(totalEntries, 2) + (entries + entry);
  }

  lemma {:induction false} EncodeSnoc(es: seq<Entry>, e: Entry)
    requires AllFit(es) && Fits(e)
    ensures Encode(es + [e]) == Encode(es) + EncodeEntry(e)
  {
    if es == [] {
      assert es + [e] == [e];
      assert Encode([e]) == EncodeEntry(e) + Encode([]);
    } else {
      assert (es + [e])[1..] == es[1..] + [e];
      EncodeSnoc(es[1..], e);
    }
  }

  lemma {:induction false} WithoutSnoc(es: seq<Entry>, e: Entry)
    requires forall i :: 0 <= i < |es| ==> es[i].typ != e.typ
    ensures Without(es + [e], e.typ) == es
  {
    if es == [] {
      assert es + [e] == [e];
      assert Without([e], e.typ) == Without([], e.typ);
    } else {
      assert (es + [e])[1..] == es[1..] + [e];
      WithoutSnoc(es[1..], e);
    }
  }

  lemma MergedIsSnoc(es: seq<Entry>, size: nat)
    requires AllFit(es) && |Encode(es)| < U16
    ensures Merged(Block(es), size) == Block(es + [CompressionEntry(size)])
  {
    EncodeSnoc(es, CompressionEntry(size));
    assert Block(es) + [] == Block(es);
    if es == [] {
      assert Block(es)[..2] == LE(0, 2);
      U16RoundTrip(0);
    } else {
      BodyOfBlock(es, []);
    }
  }

  /** Merge then strip restores a block that had no Compression entry. */
  lemma MergeThenStrip(es: seq<Entry>, size: nat)
    requires AllFit(es) && |Encode(es)| + 7 < U16
    requires forall i :: 0 <= i < |es| ==> es[i].typ != EXT_COMPRESSION
    ensures var merged := Merged(Block(es), size);
      && (Body(merged).Some? ==> Strippable(Body(merged).value, EXT_COMPRESSION))
      && Strip(merged, EXT_COMPRESSION) == (if es == [] then None else Some(Block(es)))
      && Find(merged, EXT_COMPRESSION) == Some(CompressionEntry(size).value)
  {
    var e := CompressionEntry(size);
    MergedIsSnoc(es, size);
    EncodeSnoc(es, e);
    WithoutSnoc(es, e);
    StripIsFilter(es + [e], [], EXT_COMPRESSION);
    FindFirstNonEmpty(es + [e], [], EXT_COMPRESSION);
    FirstOfSnoc(es, e);
    assert Block(es + [e]) + [] == Block(es + [e]);
  }

  lemma {:induction false} FirstOfSnoc(es: seq<Entry>, e: Entry)
    requires forall i :: 0 <= i < |es| ==> es[i].typ != e.typ
    requires e.value != []
    ensures FirstNonEmpty(es + [e], e.typ) == Some(e.value)
  {
    if es != [] {
      assert (es + [e])[1..] == es[1..] + [e];
      FirstOfSnoc(es[1..], e);
    }
  }

  lemma MergedSize(existing: seq<byte>, size: nat)
    requires existing == [] || SealedBlock(existing)
    ensures var n := if existing == [] then 7 else |existing| - 2 + 7;
      && |Merged(existing, size)| == 2 + n && Merged(existing, size)[..2] == LE(n, 2)
  {
    hide LE, FromLE;
  }

  /** The merged block is accepted by the peer's parser exactly when the original left seven bytes of the
      1024-byte limit: a frame whose own extensions use more is forwarded in a form no peer accepts. */
  lemma MergedFrameAcceptedIff(existing: seq<byte>, size: nat, streamID: nat, payload: seq<byte>)
    requires existing == [] || SealedBlock(existing)
    requires streamID < U32 && |payload| + 2000 < U32
    ensures var w := Wire(SetExtensionsBit(CMD_PUBLISH_BATCH), streamID, Merged(existing, size), payload);
      ParseFrame(w).Ok? <==> |existing| <= EXT_HEADER_LEN + MAX_EXT_TOTAL_LEN - 7
  {
    hide LE, FromLE, Merged;
    var cmd := SetExtensionsBit(CMD_PUBLISH_BATCH);
    var ext := Merged(existing, size);
    MergedSize(existing, size);
    U16RoundTrip(|ext| - 2);
    var w := Wire(cmd, streamID, ext, payload);
    HeaderFields(cmd, streamID, |ext| + |payload|, ext + payload);
    ExtPrefix(Header(cmd, streamID, |ext| + |payload|), ext, payload);
  }

  /** An input: a block of 1018 bytes of entries, which the parser takes, is merged into one it does not take. */
  lemma MergedTooLongCase(size: nat)
    ensures var existing := LE(1018, 2) + seq(1018, i => 0);
      && SealedBlock(existing)
      && ParseFrame(Wire(SetExtensionsBit(CMD_PUBLISH_BATCH), 0, Merged(existing, size), [])).Err?
  {
    hide LE, FromLE, Merged, ParseFrame, Wire;
    var zeros: seq<byte> := seq(1018, i => 0);
    U16RoundTrip(1018);
    assert (LE(1018, 2) + zeros)[..2] == LE(1018, 2);
    MergedFrameAcceptedIff(LE(1018, 2) + zeros, size, 0, []);
  }

  /** What follows a sealed block does not matter to a lookup in it. */
  lemma FindIgnoresRest(ext: seq<byte>, rest: seq<byte>, typ: byte)
    requires SealedBlock(ext)
    ensures Find(ext + rest, typ) == Find(ext, typ)
  {
    hide FromLE, Scan;
    assert (ext + rest)[..2] == ext[..2];
    assert (ext + rest)[EXT_HEADER_LEN..|ext|] == ext[EXT_HEADER_LEN..|ext|];
  }

  // ---- Priorities and retry offsets --------------------------------------------------------------

  /** ExtractPriority, with the caller's fallback to the default level folded in. */
  function PriorityOf(extensions: seq<byte>): (p: nat)
    ensures p <= PRIORITY_LOW
  {
    match Find(extensions, EXT_PRIORITY)
    case None => DEFAULT_PRIORITY
    case Some(v) => if |v| < 1 || v[0] > PRIORITY_LOW then DEFAULT_PRIORITY else v[0]
  }

  /** The block a NACK retry carries: one entry with the original offset. */
  function RetryBlock(offset: nat): seq<byte>
  {
    Block([Entry(EXT_RETRY_OFFSET, LE(offset, 8))])
  }

  /** A priority entry is read back as the level it was built with. */
  lemma PriorityRoundTrip(level: byte)
    requires level <= PRIORITY_LOW
    ensures PriorityOf(Block([Entry(EXT_PRIORITY, [level])])) == level
  {
    var es := [Entry(EXT_PRIORITY, [level])];
    assert Encode(es) == EncodeEntry(es[0]) + Encode([]);
    FindFirstNonEmpty(es, [], EXT_PRIORITY);
    assert Block(es) + [] == Block(es);
  }
}
