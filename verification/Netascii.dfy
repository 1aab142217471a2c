/** The two ends of the file: the packet reader that cuts a file into DATA
    payloads and the packet writer that appends payloads to a file, in octet and
    netascii mode.  Netascii sends LF as CR LF and CR as CR NUL, and the pair may
    be cut by a packet boundary on either side. */
module Netascii {
  import opened Wrappers

  type byte = b: int | 0 <= b < 256

  const NUL: byte := 0
  const LF: byte := 10
  const CR: byte := 13

  // ---------------------------------------------------------------- reference

  /** The one-shot netascii encoding of a file. */
  function Encode(file: seq<byte>): seq<byte> {
    if file == [] then [] else EncodeByte(file[0]) + Encode(file[1..])
  }

  function EncodeByte(c: byte): seq<byte> {
    if c == LF then [CR, LF] else if c == CR then [CR, NUL] else [c]
  }

  /** What travels on the wire for a file. */
  function Stream(convert: bool, file: seq<byte>): seq<byte> {
    if convert then Encode(file) else file
  }

  /** The wire format: a line feed, 10, travels as 13 10, a carriage return, 13, as 13 0,
      every other byte as it is, and the pieces of a file one after the other. */
  lemma {:induction false} EncodeAppend(a: seq<byte>, b: seq<byte>)
    ensures Encode(a + b) == Encode(a) + Encode(b)
    ensures Encode([10]) == [13, 10] && Encode([13]) == [13, 0]
    ensures forall c: byte :: c != 10 && c != 13 ==> Encode([c]) == [c]
  {
    forall c: byte ensures Encode([c]) == EncodeByte(c) {
      assert [c][1..] == [] && Encode([]) == [];
    }
    if a == [] {
      assert a + b == b;
    } else {
      assert (a + b)[0] == a[0] && (a + b)[1..] == a[1..] + b;
      EncodeAppend(a[1..], b);
    }
  }

  /** Every 10 follows a 13, and every 13 is followed by 10 or 0. */
  predicate WellWired(e: seq<byte>) {
    && (forall i :: 0 <= i < |e| && e[i] == 10 ==> i > 0 && e[i - 1] == 13)
    && (forall i :: 0 <= i < |e| && e[i] == 13 ==> i + 1 < |e| && (e[i + 1] == 10 || e[i + 1] == 0))
  }

  lemma WiredJoin(h: seq<byte>, t: seq<byte>)
    requires WellWired(h) && WellWired(t)
    ensures WellWired(h + t)
  {
    var e := h + t;
    forall i | 0 <= i < |e|
      ensures e[i] == 10 ==> i > 0 && e[i - 1] == 13
      ensures e[i] == 13 ==> i + 1 < |e| && (e[i + 1] == 10 || e[i + 1] == 0)
    {
      if i < |h| {
        assert e[i] == h[i];
      } else {
        assert e[i] == t[i - |h|];
      }
    }
  }

  /** Whatever the file, what travels is well wired. */
  lemma {:induction false} WireFormat(file: seq<byte>)
    ensures WellWired(Encode(file))
  {
    if file != [] {
      WireFormat(file[1..]);
      assert WellWired(EncodeByte(file[0]));
      WiredJoin(EncodeByte(file[0]), Encode(file[1..]));
    }
  }

  /** A stream cut into DATA payloads: full blocks, then one strictly shorter
      block, possibly empty, that marks the end. */
  function Blocks(stream: seq<byte>, size: nat): (blocks: seq<seq<byte>>)
    requires size > 0
    ensures |blocks| > 0
    ensures forall i :: 0 <= i < |blocks| - 1 ==> |blocks[i]| == size
    ensures |blocks[|blocks| - 1]| < size
    decreases |stream|
  {
    if |stream| < size then [stream] else [stream[..size]] + Blocks(stream[size..], size)
  }

  function Flatten(blocks: seq<seq<byte>>): seq<byte> {
    if blocks == [] then [] else blocks[0] + Flatten(blocks[1..])
  }

  lemma {:induction false} FlattenBlocks(stream: seq<byte>, size: nat)
    requires size > 0
    ensures Flatten(Blocks(stream, size)) == stream
    decreases |stream|
  {
    var blocks := Blocks(stream, size);
    if |stream| < size {
      assert blocks[1..] == [];
    } else {
      FlattenBlocks(stream[size..], size);
      assert blocks[1..] == Blocks(stream[size..], size);
      assert stream == stream[..size] + stream[size..];
    }
  }

  /** The cutting into blocks is the only one with that shape: any sequence of
      full blocks closed by one short block is the cutting of its own bytes. */
  lemma {:induction false} BlocksAreUnique(blocks: seq<seq<byte>>, size: nat)
    requires size > 0 && |blocks| > 0
    requires forall i :: 0 <= i < |blocks| - 1 ==> |blocks[i]| == size
    requires |blocks[|blocks| - 1]| < size
    ensures Blocks(Flatten(blocks), size) == blocks
  {
    var rest := blocks[1..];
    if rest == [] {
      assert Flatten(blocks) == blocks[0] + [];
      assert blocks == [blocks[0]] && Flatten(blocks) == blocks[0];
    } else {
      assert |blocks[0]| == size;
      assert forall i :: 0 <= i < |rest| - 1 ==> rest[i] == blocks[i + 1];
      BlocksAreUnique(rest, size);
      var stream := Flatten(blocks);
      assert stream[..size] == blocks[0] && stream[size..] == Flatten(rest);
    }
  }

  lemma {:induction false} FlattenAppend(xs: seq<seq<byte>>, ys: seq<seq<byte>>)
    ensures Flatten(xs + ys) == Flatten(xs) + Flatten(ys)
  {
    if xs == [] {
      assert xs + ys == ys;
    } else {
      assert (xs + ys)[0] == xs[0] && (xs + ys)[1..] == xs[1..] + ys;
      FlattenAppend(xs[1..], ys);
    }
  }

  lemma FlattenSnoc(xs: seq<seq<byte>>, y: seq<byte>)
    ensures Flatten(xs + [y]) == Flatten(xs) + y
  {
    FlattenAppend(xs, [y]);
    assert Flatten([y]) == y + Flatten([]);
  }

  // ------------------------------------------------------------------- decoder

  /** The receiving file, with the CR that has been read but not yet resolved. */
  datatype Sink = Sink(file: seq<byte>, cr: bool)

  function Put(convert: bool, s: Sink, c: byte): Sink {
    if !convert then Sink(s.file + [c], s.cr)
    else if s.cr then
      if c == LF then Sink(s.file + [LF], false)
      else if c == NUL then Sink(s.file + [CR], false)
      else Sink(s.file + [CR, c], false)
    else if c == CR then Sink(s.file, true)
    else Sink(s.file + [c], false)
  }

  function PutAll(convert: bool, s: Sink, data: seq<byte>): Sink
    decreases |data|
  {
    if data == [] then s else PutAll(convert, Put(convert, s, data[0]), data[1..])
  }

  /** write_finish: an unresolved CR at the end of the transfer is a plain CR. */
  function Finish(convert: bool, s: Sink): Sink {
    if convert && s.cr then Sink(s.file + [CR], false) else s
  }

  const EmptySink := Sink([], false)

  lemma {:induction false} PutAllAppend(convert: bool, s: Sink, a: seq<byte>, b: seq<byte>)
    ensures PutAll(convert, s, a + b) == PutAll(convert, PutAll(convert, s, a), b)
    decreases |a|
  {
    if a == [] {
      assert a + b == b;
    } else {
      assert (a + b)[0] == a[0] && (a + b)[1..] == a[1..] + b;
      PutAllAppend(convert, Put(convert, s, a[0]), a[1..], b);
    }
  }

  /** Reading netascii: 13 10 gives 10, 13 0 gives 13, a 13 before anything else stands for
      itself, also at the end of the transfer, and so does every other byte. */
  lemma DecodePieces(file: seq<byte>, c: byte)
    ensures PutAll(true, Sink(file, false), [13, c]) ==
      Sink(file + (if c == 10 then [10] else if c == 0 then [13] else [13, c]), false)
    ensures Finish(true, PutAll(true, Sink(file, false), [13])) == Sink(file + [13], false)
    ensures c != 13 ==> PutAll(true, Sink(file, false), [c]) == Sink(file + [c], false)
  {
    assert [13, c][1..] == [c] && [c][1..] == [] && [13][1..] == [];
    assert PutAll(true, Put(true, Sink(file, true), c), []) == Put(true, Sink(file, true), c);
  }

  lemma PutAllSnoc(convert: bool, s: Sink, a: seq<byte>, c: byte)
    ensures PutAll(convert, s, a + [c]) == Put(convert, PutAll(convert, s, a), c)
  {
    PutAllAppend(convert, s, a, [c]);
    assert PutAll(convert, PutAll(convert, s, a), [c]) == Put(convert, PutAll(convert, s, a), c);
  }

  /** Decoding undoes encoding, whatever the file holds already. */
  lemma {:induction false} DecodeStream(convert: bool, prefix: seq<byte>, file: seq<byte>)
    ensures PutAll(convert, Sink(prefix, false), Stream(convert, file)) == Sink(prefix + file, false)
    decreases |file|
  {
    if file == [] {
      assert prefix + file == prefix;
    } else {
      var c := file[0];
      var head := if convert then EncodeByte(c) else [c];
      var s := Sink(prefix, false);
      assert Stream(convert, file) == head + Stream(convert, file[1..]) by {
        assert file == [file[0]] + file[1..];
      }
      PutAllAppend(convert, s, head, Stream(convert, file[1..]));
      DecodeHead(convert, prefix, c);
      DecodeStream(convert, prefix + [c], file[1..]);
      assert prefix + [c] + file[1..] == prefix + file;
    }
  }

  lemma DecodeHead(convert: bool, prefix: seq<byte>, c: byte)
    ensures PutAll(convert, Sink(prefix, false), if convert then EncodeByte(c) else [c]) == Sink(prefix + [c], false)
  {
    var head := if convert then EncodeByte(c) else [c];
    var s1 := Put(convert, Sink(prefix, false), head[0]);
    assert PutAll(convert, Sink(prefix, false), head) == PutAll(convert, s1, head[1..]);
    if |head| == 2 {
      assert head[1..] == [head[1]];
      assert PutAll(convert, s1, [head[1]]) == PutAll(convert, Put(convert, s1, head[1]), [head[1]][1..]);
    }
  }

  /** Writing the payloads one after another, from an empty file. */
  function Written(convert: bool, blocks: seq<seq<byte>>): Sink {
    PutAll(convert, EmptySink, Flatten(blocks))
  }

  lemma WrittenSnoc(convert: bool, blocks: seq<seq<byte>>, data: seq<byte>)
    ensures Written(convert, blocks + [data]) == PutAll(convert, Written(convert, blocks), data)
  {
    FlattenSnoc(blocks, data);
    PutAllAppend(convert, EmptySink, Flatten(blocks), data);
  }

  /** Round trip over every packet split: for every file and block size the
      payloads, decoded one after another and closed by write_finish, give the
      file back, wherever the block boundaries cut the CR pairs. */
  lemma RoundTrip(convert: bool, file: seq<byte>, size: nat)
    requires size > 0
    ensures Finish(convert, Written(convert, Blocks(Stream(convert, file), size))) == Sink(file, false)
  {
    FlattenBlocks(Stream(convert, file), size);
    DecodeStream(convert, [], file);
    assert [] + file == file;
  }

  /** The encoding is faithful: two files with one encoding are one file. */
  lemma EncodeInjective(f: seq<byte>, g: seq<byte>)
    requires Encode(f) == Encode(g)
    ensures f == g
  {
    DecodeStream(true, [], f);
    DecodeStream(true, [], g);
    assert [] + f == f && [] + g == g;
  }

  // -------------------------------------------------------------- packet reader

  /** The reading side of the file handle: the position, the half of a CR pair
      still owed (newline, prevchar), and whether the read at the end of the
      contents is an I/O error instead of an end of file. */
  datatype Source = Source(file: seq<byte>, broken: bool, pos: nat, newline: bool, prevchar: int)

  predicate ValidSource(s: Source) {
    s.pos <= |s.file| && (s.newline ==> s.prevchar == LF || s.prevchar == CR)
  }

  function OpenSource(file: seq<byte>, broken: bool): Source {
    Source(file, broken, 0, false, -1)
  }

  /** The wire bytes the source has still to deliver. */
  function Rest(convert: bool, s: Source): seq<byte>
    requires s.pos <= |s.file|
  {
    if convert then
      (if s.newline then [if s.prevchar == LF then LF else NUL] else []) + Encode(s.file[s.pos..])
    else
      s.file[s.pos..]
  }

  /** One turn of the netascii read loop: the byte delivered and the new state. */
  function Advance(s: Source): (byte, Source)
    requires ValidSource(s) && (s.newline || s.pos < |s.file|)
  {
    if s.newline then
      (if s.prevchar == LF then LF else NUL, s.(newline := false))
    else
      var c := s.file[s.pos];
      if c == LF || c == CR then (CR, s.(pos := s.pos + 1, newline := true, prevchar := c))
      else (c, s.(pos := s.pos + 1))
  }

  lemma AdvanceRest(s: Source)
    requires ValidSource(s) && (s.newline || s.pos < |s.file|)
    ensures ValidSource(Advance(s).1)
    ensures Rest(true, s) == [Advance(s).0] + Rest(true, Advance(s).1)
  {
    if !s.newline {
      var tail := s.file[s.pos..];
      assert tail[0] == s.file[s.pos] && tail[1..] == s.file[s.pos + 1..];
      assert Encode(tail) == EncodeByte(tail[0]) + Encode(tail[1..]);
    }
  }

  /** One packet read: up to size bytes of what is left, or nothing when the
      read runs into the I/O error. */
  function Fetched(convert: bool, s: Source, size: nat): Option<seq<byte>>
    requires s.pos <= |s.file|
  {
    var rest := Rest(convert, s);
    if |rest| >= size then Some(rest[..size])
    else if s.broken then None
    else Some(rest)
  }

  lemma AdvanceSplit(start: Source, now: Source, p: seq<byte>, c: byte)
    requires start.pos <= |start.file|
    requires ValidSource(now) && (now.newline || now.pos < |now.file|) && c == Advance(now).0
    requires Rest(true, start) == p + Rest(true, now)
    ensures ValidSource(Advance(now).1)
    ensures Rest(true, start) == (p + [c]) + Rest(true, Advance(now).1)
  {
    AdvanceRest(now);
  }

  lemma FetchedAtEnd(start: Source, now: Source, p: seq<byte>, size: nat)
    requires start.pos <= |start.file| && now.pos == |now.file| && !now.newline
    requires now.broken == start.broken && |p| < size
    requires Rest(true, start) == p + Rest(true, now)
    ensures Rest(true, start) == p && Rest(true, now) == []
    ensures Fetched(true, start, size) == if start.broken then None else Some(p)
  {
    assert now.file[now.pos..] == [];
  }

  /** The reader's file handle, updated in place by each packet read. */
  class PacketReader {
    const convert: bool
    const file: seq<byte>
    const broken: bool
    var pos: nat
    var newline: bool
    var prevchar: int

    function State(): Source
      reads this
    {
      Source(file, broken, pos, newline, prevchar)
    }

    constructor (convert: bool, file: seq<byte>, broken: bool)
      ensures this.convert == convert && State() == OpenSource(file, broken)
      ensures ValidSource(State()) && Rest(convert, State()) == Stream(convert, file)
    {
      this.convert := convert;
      this.file := file;
      this.broken := broken;
      pos, newline, prevchar := 0, false, -1;
      new;
      assert file[0..] == file;
    }

    /** netascii_read_packet and octet_read_packet. */
    method ReadPacket(size: nat) returns (data: Option<seq<byte>>)
      requires ValidSource(State()) && size > 0
      modifies this
      ensures ValidSource(State())
      ensures data == Fetched(convert, old(State()), size)
      ensures data.Some? ==> Rest(convert, State()) == old(Rest(convert, State()))[|data.value|..]
      ensures data.None? ==> Rest(convert, State()) == []
    {
      if convert {
        data := ReadNetascii(size);
      } else {
        var n := if |file| - pos < size then |file| - pos else size;
        ghost var rest := Rest(convert, State());
        if n < size && broken {
          pos := |file|;
          return None;
        }
        data := Some(file[pos..pos + n]);
        pos := pos + n;
        assert rest[..n] == file[old(pos)..pos];
        if n < size { assert rest[..n] == rest; }
        assert rest[n..] == file[pos..];
      }
    }

    method ReadNetascii(size: nat) returns (data: Option<seq<byte>>)
      requires ValidSource(State()) && size > 0 && convert
      modifies this
      ensures ValidSource(State())
      ensures data == Fetched(true, old(State()), size)
      ensures data.Some? ==> Rest(true, State()) == old(Rest(true, State()))[|data.value|..]
      ensures data.None? ==> Rest(true, State()) == []
    {
      var p: seq<byte> := [];
      ghost var start := State();
      ghost var now := start;
      for i := 0 to size
        invariant now == State() && ValidSource(now) && |p| == i
        invariant Rest(true, start) == p + Rest(true, now)
      {
        var c: byte;
        if newline {
          c := if prevchar == LF then LF else NUL;
          newline := false;
          assert Advance(now).0 == c && Advance(now).1 == State();
        } else {
          if pos == |file| {
            FetchedAtEnd(start, now, p, size);
            return if broken then None else Some(p);
          }
          c := file[pos];
          pos := pos + 1;
          if c == LF || c == CR {
            prevchar := c;
            c := CR;
            newline := true;
          }
          assert Advance(now).0 == c && Advance(now).1 == State();
        }
        AdvanceSplit(start, now, p, c);
        now := Advance(now).1;
        p := p + [c];
      }
      assert Rest(true, start)[..size] == p;
      return Some(p);
    }
  }

  /** The writer's file handle, updated in place by each packet written. */
  class PacketWriter {
    const convert: bool
    var file: seq<byte>
    var writeCr: bool

    function State(): Sink
      reads this
    {
      Sink(file, writeCr)
    }

    constructor (convert: bool)
      ensures this.convert == convert && State() == EmptySink
    {
      this.convert := convert;
      file, writeCr := [], false;
    }

    /** putc, on a file that takes limit bytes. */
    method PutChar(c: byte, limit: nat) returns (ok: bool)
      requires |file| <= limit
      modifies this`file
      ensures ok <==> |old(file)| < limit
      ensures file == if ok then old(file) + [c] else old(file)
    {
      ok := |file| < limit;
      if ok {
        file := file + [c];
      }
    }

    /** netascii_write_packet and octet_write_packet, on a file that takes room more
        bytes: the decoded payload is appended, or as much of it as there is room for. */
    method WritePacket(data: seq<byte>, room: nat) returns (ok: bool)
      modifies this
      ensures var all, limit := PutAll(convert, old(State()), data), |old(file)| + room;
        && (ok <==> |all.file| <= limit)
        && (ok ==> State() == all)
        && (!ok ==> file == all.file[..limit])
    {
      if convert {
        ok := WriteNetascii(data, |file| + room);
        return;
      }
      OctetPutAll(State(), data);
      ok := |data| <= room;
      file := file + (if ok then data else data[..room]);
    }

    method WriteNetascii(data: seq<byte>, limit: nat) returns (ok: bool)
      requires convert && |file| <= limit
      modifies this
      ensures var all := PutAll(true, old(State()), data);
        && (ok <==> |all.file| <= limit)
        && (ok ==> State() == all)
        && (!ok ==> file == all.file[..limit])
    {
      ghost var start := State();
      var p := 0;
      while p < |data|
        invariant 0 <= p <= |data| && |file| <= limit
        invariant State() == PutAll(true, start, data[..p])
      {
        PutAllSnoc(true, start, data[..p], data[p]);
        assert data[..p] + [data[p]] == data[..p + 1];
        hide PutAll;
        ok := WriteChar(data[p], limit);
        if !ok {
          PutAllPrefix(true, start, data, p + 1);
          return;
        }
        p := p + 1;
      }
      assert data[..p] == data;
      ok := true;
    }

    /** One turn of the netascii loop. */
    method WriteChar(data: byte, limit: nat) returns (ok: bool)
      requires |file| <= limit
      modifies this
      ensures var next := Put(true, old(State()), data);
        && (ok <==> |next.file| <= limit)
        && (ok ==> State() == next)
        && (!ok ==> file == next.file[..limit])
    {
      var c := data;
      if writeCr {
        if c == LF {
          c := LF;
        } else if c == NUL {
          c := CR;
        } else {
          ok := PutChar(CR, limit);
          if !ok {
            return;
          }
        }
        writeCr := false;
        ok := PutChar(c, limit);
        return;
      }
      if c == CR {
        writeCr := true;
        return true;
      }
      ok := PutChar(c, limit);
    }

    /** netascii_write_finish and octet_write_finish, up to the flush. */
    method WriteFinish(room: nat) returns (ok: bool)
      modifies this
      ensures ok <==> |Finish(convert, old(State())).file| <= |old(file)| + room
      ensures State() == if ok then Finish(convert, old(State())) else old(State())
    {
      ok := true;
      if convert && writeCr {
        ok := PutChar(CR, |file| + room);
        if ok {
          writeCr := false;
        }
      }
    }
  }

  /** Writing only appends. */
  lemma {:induction false} PutAllGrows(convert: bool, s: Sink, data: seq<byte>)
    ensures s.file <= PutAll(convert, s, data).file
    decreases |data|
  {
    if data != [] {
      PutAllGrows(convert, Put(convert, s, data[0]), data[1..]);
    }
  }

  lemma PutAllPrefix(convert: bool, s: Sink, data: seq<byte>, k: nat)
    requires k <= |data|
    ensures PutAll(convert, s, data[..k]).file <= PutAll(convert, s, data).file
  {
    assert data[..k] + data[k..] == data;
    PutAllAppend(convert, s, data[..k], data[k..]);
    PutAllGrows(convert, PutAll(convert, s, data[..k]), data[k..]);
  }

  lemma {:induction false} OctetPutAll(s: Sink, data: seq<byte>)
    ensures PutAll(false, s, data) == Sink(s.file + data, s.cr)
    decreases |data|
  {
    if data == [] {
      assert s.file + data == s.file;
    } else {
      OctetPutAll(Put(false, s, data[0]), data[1..]);
      assert s.file + [data[0]] + data[1..] == s.file + data;
    }
  }
}
