/** Decompressing an incoming frame: when it is left alone, refused, inflated, or ends in a panic. */
module Decompression {
  import opened Bytes
  import opened Frames
  import opened Extensions

  /** The compression engine: the payload of the given size, or an error. */
  datatype Engine = Engine(inflate: (seq<byte>, nat) -> Option<seq<byte>>)

  datatype Outcome = Unchanged | Refused | Panics | Inflated(frame: Frame)

  /** The size a usable compression entry announces. */
  function AnnouncedSize(ext: seq<byte>): Option<nat>
  {
    match Find(ext, EXT_COMPRESSION)
    case None => None
    case Some(v) =>
      if |v| < EXT_COMPRESSION_VALUE_LEN || v[0] != ALGO_ZSTD || FromLE(v[1..5]) == 0 then None else Some(FromLE(v[1..5]))
  }

  /** Both limits hold: sixteen times the read buffer, in 32 bits, and what the stream may inflate in all. */
  predicate Admitted(size: nat, maxBuf: nat, used: nat, perStream: nat)
  {
    size <= (maxBuf % U32 * 16) % U32 && used + size <= perStream
  }

  /** On a well-formed block the first compression entry that is not empty counts: it announces a size when it has five
      bytes, the first of them 1 for zstd, and the size is not zero. */
  lemma AnnouncedIs(es: seq<Entry>)
    requires AllFit(es) && |Encode(es)| < U16
    ensures AnnouncedSize(Block(es)) == match FirstNonEmpty(es, EXT_COMPRESSION)
                                        case None => None
                                        case Some(v) => if |v| >= 5 && v[0] == 1 && FromLE(v[1..5]) > 0 then Some(FromLE(v[1..5])) else None
  {
    hide Find, Encode, FirstNonEmpty, FromLE, LE;
    FindFirstNonEmpty(es, [], EXT_COMPRESSION);
    assert Block(es) + [] == Block(es);
  }

  /** With a read buffer limit below 2^28 the size limit is sixteen times it; above, the product is cut to 32 bits. */
  lemma AdmittedIs(size: nat, maxBuf: nat, used: nat, perStream: nat)
    requires maxBuf < 0x1000_0000
    ensures Admitted(size, maxBuf, used, perStream) <==> size <= 16 * maxBuf && used + size <= perStream
  {
  }

  /** decompressFrame on a parsed frame; `used` is what the stream has inflated so far. It panics exactly when the frame
      announces a usable size within the limits, its payload inflates, and behind some whole entries of its extensions
      comes one of another type that claims more bytes than are left. */
  method DecompressFrame(engine: Option<Engine>, maxBuf: nat, perStream: nat, used: nat, f: Frame)
    returns (out: Outcome, used': nat)
    requires Carriable(f)
    ensures out.Unchanged? <==> engine.None? || AnnouncedSize(f.extensions).None?
    ensures !out.Unchanged? ==>
      var size := AnnouncedSize(f.extensions).value;
      var plain := engine.value.inflate(f.payload, size);
      && (out.Refused? <==> !Admitted(size, maxBuf, used, perStream) || plain.None?)
      && (out.Panics? <==>
            Admitted(size, maxBuf, used, perStream) && plain.Some? && Overruns(f.extensions[EXT_HEADER_LEN..], EXT_COMPRESSION))
      && (out.Inflated? ==>
            var kept := Strip(f.extensions, EXT_COMPRESSION);
            out.frame == Frame(f.command, f.streamID, plain.value, if kept.None? then [] else kept.value))
    ensures used' == if !out.Unchanged? && Admitted(AnnouncedSize(f.extensions).value, maxBuf, used, perStream)
                     then used + AnnouncedSize(f.extensions).value else used
    ensures used' <= Max(used, perStream)
  {
    hide FromLE, LE, Strip, Overruns, Strippable, Find;
    used' := used;
    if engine.None? {
      return Unchanged, used';
    }
    var value := FindExtension(f.extensions, EXT_COMPRESSION);
    if value.None? || |value.value| < EXT_COMPRESSION_VALUE_LEN {
      return Unchanged, used';
    }
    var size := FromLE(value.value[1..5]);
    if value.value[0] != ALGO_ZSTD || size == 0 {
      return Unchanged, used';
    }
    if size > (maxBuf % U32 * 16) % U32 {
      return Refused, used';
    }
    if used + size > perStream {
      return Refused, used';
    }
    used' := used + size;
    var plain := engine.value.inflate(f.payload, size);
    if plain.None? {
      return Refused, used';
    }
    HasEntries(f, EXT_COMPRESSION);
    OverrunsIff(f.extensions[EXT_HEADER_LEN..], EXT_COMPRESSION);
    var clean, panics := StripExtension(f.extensions, EXT_COMPRESSION);
    if panics {
      return Panics, used';
    }
    out := Inflated(Frame(f.command, f.streamID, plain.value, if clean == null then [] else clean[..]));
  }

  /** A lookup that finds something has a block to find it in. */
  lemma HasEntries(f: Frame, typ: byte)
    requires Carriable(f) && Find(f.extensions, typ).Some?
    ensures |f.extensions| >= EXT_HEADER_LEN && Body(f.extensions) == Some(f.extensions[EXT_HEADER_LEN..])
  {
    hide FromLE, Scan;
    if HasExtensionsBit(f.command) {
      BodyOfSealed(f.extensions);
    }
  }

  /** An input: a usable compression entry, then an entry of type 7 that claims 200 bytes and has none. */
  lemma OverrunningEntryCase(payload: seq<byte>)
    requires |payload| + 11 < U32
    ensures var f := Frame(SetExtensionsBit(CMD_PUBLISH), 0, payload, LE(9, 2) + [2, 5, 1, 1, 0, 0, 0, 7, 200]);
      && Carriable(f) && AnnouncedSize(f.extensions) == Some(1)
      && Overruns(f.extensions[EXT_HEADER_LEN..], EXT_COMPRESSION)
  {
    var entries: seq<byte> := [2, 5, 1, 1, 0, 0, 0, 7, 200];
    var ext := LE(9, 2) + entries;
    var e := CompressionEntry(1);
    OneLE();
    assert EncodeEntry(e) == [2, 5, 1, 1, 0, 0, 0];
    assert Encode([e]) == EncodeEntry(e) + Encode([]);
    U16RoundTrip(9);
    assert ext[..2] == LE(9, 2) && ext[2..11] == entries && ext[2..] == entries;
    assert entries == Encode([e]) + ([7, 200] + []);
    assert OverrunAt(entries, EXT_COMPRESSION, [e], 7, 200, []);
    hide LE, FromLE;
    assert Body(ext) == Some(entries);
    assert Scan(entries, EXT_COMPRESSION) == Some(entries[2..7]);
    assert entries[2..7] == [1] + LE(1, 4);
    assert entries[2..7][1..5] == LE(1, 4);
    U32RoundTrip(1);
  }

  lemma OneLE()
    ensures LE(1, 4) == [1, 0, 0, 0]
  {
    assert LE(0, 3) == [0] + LE(0, 2) && LE(0, 2) == [0] + LE(0, 1) && LE(0, 1) == [0] + LE(0, 0);
  }
}
