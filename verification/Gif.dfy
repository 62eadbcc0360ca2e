/** Decoding of the image data of one GIF frame: sub-blocks, the linked dictionary, and the
    walk over the image rectangle. */
module Gif {
  import opened BitStream
  import opened Common
  import opened GifRaster
  import L = Lzw

  datatype Link = Link(prefix: int, first: byte, suffix: byte)

  function SwapRedBlue(c: Colour): Colour {
    Colour(c.c2, c.c1, c.c0, c.alpha)
  }

  /** A pixel after the first n indices are written along the path; transparent entries of
      the palette leave it as it is. */
  function Image(palette: seq<Colour>, path: seq<Cell>, indices: seq<byte>, n: nat, z: Cell, base: Colour): Colour
    requires |palette| == 256 && n <= |path| && n <= |indices|
  {
    if n == 0 then base
    else if path[n - 1] == z && palette[indices[n - 1]].alpha > 128 then SwapRedBlue(palette[indices[n - 1]])
    else Image(palette, path, indices, n - 1, z, base)
  }

  /** On a path without repetitions every visited pixel shows its own index. */
  lemma {:induction false} ImageAt(palette: seq<Colour>, path: seq<Cell>, indices: seq<byte>, n: nat, k: nat, base: Colour)
    requires |palette| == 256 && n <= |path| && n <= |indices| && k < |path| && k < |indices| && Distinct(path)
    ensures Image(palette, path, indices, n, path[k], base) ==
      if k < n && palette[indices[k]].alpha > 128 then SwapRedBlue(palette[indices[k]]) else base
  {
    if n == 0 {
    } else {
      ImageAt(palette, path, indices, n - 1, k, base);
      if k < n - 1 {
        assert path[k] != path[n - 1];
      } else if n - 1 < k {
        assert path[n - 1] != path[k];
      }
    }
  }

  // ---------------------------------------------------------------------------------------
  // Descriptors and colour tables

  /** The position after n more bytes. */
  function Skip(input: seq<byte>, p: nat, n: nat): nat {
    if p + n <= |input| then p + n else if p < |input| then |input| else p
  }

  lemma SkipNext(input: seq<byte>, p: nat, n: nat)
    ensures ByteAt(input, Skip(input, p, n)) == ByteAt(input, p + n)
    ensures After(input, Skip(input, p, n)) == Skip(input, p, n + 1) && Skip(input, p, 0) == p
  {
  }

  function WordAt(input: seq<byte>, p: nat): nat {
    ByteAt(input, p) + 256 * ByteAt(input, p + 1)
  }

  /** Entry i of a colour table at byte t: three bytes, kept in the opposite order. */
  predicate IsEntry(input: seq<byte>, t: nat, i: nat, transp: int, c: Colour) {
    && c.c2 == ByteAt(input, t + 3 * i) && c.c1 == ByteAt(input, t + 3 * i + 1) && c.c0 == ByteAt(input, t + 3 * i + 2)
    && c.alpha == if transp == i then 0 else 255
  }

  /** An image with a colour table of its own. */
  predicate HasTable(flags: byte) {
    flags >= 128
  }

  function TableSize(flags: byte): (n: nat)
    ensures n <= 256
  {
    assert Pow2(7) == 128;
    Pow2Mono(flags % 8, 7);
    2 * Pow2(flags % 8)
  }

  /** How far after the beginning of the descriptor the image data begin. */
  function DataStart(flags: byte): nat {
    9 + if HasTable(flags) then 3 * TableSize(flags) else 0
  }

  /** The colour table at byte t, or the global one. */
  predicate IsPalette(input: seq<byte>, t: nat, flags: byte, global: Option<seq<Colour>>, transp: int, colours: seq<Colour>) {
    && |colours| == 256
    && if HasTable(flags) then forall i | 0 <= i < TableSize(flags) :: IsEntry(input, t, i, transp, colours[i])
      else global == Some(colours)
  }

  /** What index e looks like: the red, green and blue of its entry in the file, or what was there before. */
  predicate Shows(input: seq<byte>, p: nat, transp: int, global: Option<seq<Colour>>, e: byte, before: Colour, now: Colour)
    requires global.Some? ==> |global.value| == 256
  {
    var flags := ByteAt(input, p + 8);
    if HasTable(flags) then
      e < TableSize(flags) ==>
        now == if e == transp then before
          else Colour(ByteAt(input, p + 9 + 3 * e), ByteAt(input, p + 9 + 3 * e + 1), ByteAt(input, p + 9 + 3 * e + 2), 255)
    else
      global.Some? &&
      var c := global.value[e];
      now == if c.alpha > 128 then Colour(c.c2, c.c1, c.c0, c.alpha) else before
  }

  // ---------------------------------------------------------------------------------------
  // Sub-blocks

  function After(input: seq<byte>, p: nat): nat {
    if p < |input| then p + 1 else p
  }

  /** The data bytes from p on, of which the current block still has len; a block of length
      zero ends them.  Past its end the input reads as zeros. */
  function Payload(input: seq<byte>, p: nat, len: nat): seq<byte>
    decreases if p < |input| then |input| - p else 0, len
  {
    if len > 0 then [ByteAt(input, p)] + Payload(input, After(input, p), len - 1)
    else if ByteAt(input, p) == 0 then []
    else Payload(input, After(input, p), ByteAt(input, p))
  }

  // ---------------------------------------------------------------------------------------
  // Rows still to come

  /** The rows from r on with the given step, and those of the passes after. */
  function RowsFrom(r: int, step: int, parse: nat, h: nat): seq<int>
    requires step > 0 && parse <= 3
  {
    Range(r, step, h) + PassRows(4 - parse, h)
  }

  lemma RowsNext(r: int, step: int, parse: nat, h: nat)
    requires step > 0 && parse <= 3
    ensures r < h ==> RowsFrom(r, step, parse, h) == [r] + RowsFrom(r + step, step, parse, h)
    ensures r >= h && parse > 0 ==>
      RowsFrom(r, step, parse, h) == RowsFrom(PassFirst(4 - parse), PassStep(4 - parse), parse - 1, h)
    ensures r >= h && parse == 0 ==> RowsFrom(r, step, parse, h) == []
  {
    if r < h {
      assert [r] + Range(r + step, step, h) + PassRows(4 - parse, h)
          == [r] + (Range(r + step, step, h) + PassRows(4 - parse, h));
    }
  }

  lemma RowsStart(h: nat)
    ensures RowsFrom(0, 8, 3, h) == RowOrder(true, h) && RowsFrom(0, 1, 0, h) == RowOrder(false, h)
  {
    assert Range(0, 1, h) + [] == Range(0, 1, h);
  }

  class Gif {
    const input: seq<byte>
    var pos: nat

    const codes: array<Link>
    var palette: seq<Colour>
    const out: array2<Colour>

    var startX: int
    var startY: int
    var maxX: int
    var maxY: int
    var curX: int
    var curY: int
    var step: int
    var parse: nat

    // The frame's path and the pixels it started from, and what was emitted so far.
    ghost var path: seq<Cell>
    ghost var origin: seq<seq<Colour>>
    ghost var emitted: seq<byte>

    /** The cells still to be visited. */
    ghost function Remaining(): seq<Cell>
      requires step > 0 && parse <= 3 && startY <= maxY
      reads `curX, `curY, `step, `parse, `startX, `startY, `maxX, `maxY
    {
      if curY >= maxY then [] else RowCells(curY, curX, maxX) + RowsAfter()
    }

    /** Those below the current row and in the passes after. */
    ghost function RowsAfter(): seq<Cell>
      requires step > 0 && parse <= 3 && startY <= maxY
      reads `curX, `curY, `step, `parse, `startX, `startY, `maxX, `maxY
    {
      Cells(RowsFrom(curY - startY + step, step, parse, maxY - startY), startY, startX, maxX)
    }

    ghost predicate Shape()
      reads `curX, `curY, `step, `parse, `startX, `startY, `maxX, `maxY, `palette
    {
      && codes.Length == L.LINKS && |palette| == 256
      && 0 <= startX <= maxX <= out.Length1 && 0 <= startY <= maxY <= out.Length0
      && step > 0 && parse <= 3
      && (curY < maxY ==> startY <= curY && startX <= curX < maxX)
    }

    ghost predicate Walking()
      reads `curX, `curY, `step, `parse, `startX, `startY, `maxX, `maxY, `palette, `path, `emitted
    {
      Shape() && OnPath(path, Remaining(), |emitted|)
    }

    ghost function Visited(): nat
      requires step > 0 && parse <= 3 && startY <= maxY
      reads `curX, `curY, `step, `parse, `startX, `startY, `maxX, `maxY, `path
    {
      if |Remaining()| <= |path| then |path| - |Remaining()| else 0
    }

    /** The output shows the emitted indices over the pixels it started from. */
    ghost predicate Painted()
      requires Walking()
      reads `curX, `curY, `step, `parse, `startX, `startY, `maxX, `maxY, `palette, `path, `emitted, `origin, out
    {
      && |origin| == out.Length0 && (forall i | 0 <= i < out.Length0 :: |origin[i]| == out.Length1)
      && forall i, j | 0 <= i < out.Length0 && 0 <= j < out.Length1 ::
        out[i, j] == Image(palette, path, emitted, Visited(), Cell(i, j), origin[i][j])
    }

    ghost function Snapshot(): (s: seq<seq<Colour>>)
      reads out
      ensures |s| == out.Length0 && forall i | 0 <= i < |s| :: |s[i]| == out.Length1
      ensures forall i, j | 0 <= i < out.Length0 && 0 <= j < out.Length1 :: s[i][j] == out[i, j]
    {
      seq(out.Length0, i requires 0 <= i < out.Length0 reads out =>
        seq(out.Length1, j requires 0 <= j < out.Length1 reads out => out[i, j]))
    }

    ghost function RowsRest(): seq<Cell>
      requires step > 0 && parse <= 3 && startY <= maxY
      reads `curX, `curY, `step, `parse, `startX, `startY, `maxX, `maxY
    {
      Cells(RowsFrom(curY - startY, step, parse, maxY - startY), startY, startX, maxX)
    }

    /** Moves to the next row, and to the next passes while they have no rows. */
    method NextRow()
      requires step > 0 && parse <= 3 && startY <= curY < maxY && startX < maxX
      modifies this`curX, this`curY, this`step, this`parse
      ensures step > 0 && parse <= 3 && startY <= curY && curX == startX
      ensures Remaining() == old(RowsAfter())
    {
      hide Range, PassRows, RowsFrom, RowCells, Cells, PassStep, PassFirst, Pow2;
      var h := maxY - startY;
      RowsNext(curY - startY, step, parse, h);
      curX := startX;
      curY := curY + step;
      ghost var rest := RowsRest();
      while curY >= maxY && parse > 0
        invariant step > 0 && parse <= 3 && startY <= curY && curX == startX
        invariant RowsRest() == rest
        decreases parse
      {
        RowsNext(curY - startY, step, parse, h);
        PassShift(parse);
        step := Pow2(parse);
        curY := startY + step / 2;
        parse := parse - 1;
      }
      RowsNext(curY - startY, step, parse, h);
      CellsCons(curY - startY, RowsFrom(curY - startY + step, step, parse, h), startY, startX, maxX);
    }

    /** Moves to the next cell. */
    method MoveOn()
      requires Shape() && curY < maxY
      modifies this`curX, this`curY, this`step, this`parse
      ensures Shape()
      ensures old(Remaining()) == [Cell(old(curY), old(curX))] + Remaining()
    {
      hide Cells, RowCells, RowsFrom, PassRows, Range;
      RowCellsStep(curY, curX, maxX);
      RowCellsStep(curY, curX + 1, maxX);
      ghost var below := RowsAfter();
      assert Remaining() == [Cell(curY, curX)] + (RowCells(curY, curX + 1, maxX) + below);
      curX := curX + 1;
      if curX >= maxX {
        NextRow();
      }
    }

    /** Writes one pixel and moves on; past the end of the rectangle it does nothing. */
    method OutPixel(suffix: byte)
      requires Walking() && Painted()
      modifies this`curX, this`curY, this`step, this`parse, this`emitted, out
      ensures Walking() && Painted() && emitted == old(emitted) + [suffix]
    {
      hide Image, Remaining, RowsAfter;
      ghost var n := |path| - |Remaining()|;
      ImagesExtend(palette, path, emitted, suffix, n);
      if curY >= maxY {
        NoneRemain();
        emitted := emitted + [suffix];
        return;
      }
      var c := palette[suffix];
      if c.alpha > 128 {
        out[curY, curX] := SwapRedBlue(c);
      }
      ghost var here := Cell(curY, curX);
      ghost var rest := Remaining();
      MoveOn();
      PathStep(path, rest, Remaining(), |emitted|, here);
      emitted := emitted + [suffix];
      ImageStep(palette, path, emitted, n);
    }

    // -------------------------------------------------------------------------------------
    // The dictionary

    /** Writes the string of a code: first that of its prefix, then its last index. */
    method OutCode(code: nat, ghost clear: nat, ghost table: seq<seq<byte>>)
      requires Walking() && Painted() && Linked(codes[..], clear, table)
      requires code < |table| && Real(code, clear)
      modifies this`curX, this`curY, this`step, this`parse, this`emitted, out
      ensures Walking() && Painted() && emitted == old(emitted) + table[code]
      decreases code
    {
      hide Walking, Painted, Shape;
      assert LinkIs(codes[..], clear, table, code);
      if codes[code].prefix >= 0 {
        OutCode(codes[code].prefix, clear, table);
      }
      OutPixel(codes[code].suffix);
    }

    /** Enters the roots. */
    method InitCodes(clear: nat)
      requires codes.Length == L.LINKS && clear + 2 <= L.LINKS
      modifies codes
      ensures Linked(codes[..], clear, L.Roots(clear) + [[], []])
    {
      for i := 0 to clear
        invariant forall j | 0 <= j < i :: codes[j] == Link(-1, j % 256, j % 256)
      {
        codes[i] := Link(-1, i % 256, i % 256);
      }
    }

    /** Makes the next entry: the string of oldcode and the first index of that of code, which
        may be the entry being made. */
    method AddEntry(avail: nat, code: nat, oldcode: nat, ghost clear: nat, ghost table: seq<seq<byte>>)
      requires codes.Length == L.LINKS && avail == |table| < L.LINKS && Linked(codes[..], clear, table)
      requires oldcode < avail && Real(oldcode, clear) && code <= avail && Real(code, clear) && clear + 2 <= avail
      modifies codes
      ensures table[oldcode] != []
      ensures var text := if code < avail then table[code] else table[oldcode] + [table[oldcode][0]];
        text != [] && Linked(codes[..], clear, table + [table[oldcode] + [text[0]]])
        && (table + [table[oldcode] + [text[0]]])[code] == text
    {
      assert LinkIs(codes[..], clear, table, oldcode);
      assert code < avail ==> LinkIs(codes[..], clear, table, code);
      ghost var before := codes[..];
      codes[avail] := codes[avail].(prefix := oldcode);
      codes[avail] := codes[avail].(first := codes[oldcode].first);
      // The code is compared with the count already raised, so it is never equal to it.
      if code == avail + 1 {
        assert false;
      }
      codes[avail] := codes[avail].(suffix := codes[code].first);
      LinkedSnoc(before, codes[..], clear, table, table[oldcode] + [codes[avail].suffix]);
    }

    // -------------------------------------------------------------------------------------
    // The image data

    method Get8() returns (b: byte)
      modifies this`pos
      ensures b == ByteAt(input, old(pos)) && pos == After(input, old(pos))
    {
      if pos < |input| {
        b := input[pos];
        pos := pos + 1;
      } else {
        b := 0;
      }
    }

    /** Fetches one data byte into the bit buffer, starting a new block if need be. */
    method FetchByte(bits: nat, validBits: nat, len: nat, ghost data: seq<byte>, ghost got: nat, ghost bitpos: nat)
      returns (more: bool, bits': nat, validBits': nat, len': nat)
      requires Buffered(input, data, pos, len, got, bitpos, bits, validBits)
      modifies this`pos
      ensures !more ==> got == |data|
      ensures more ==> Buffered(input, data, pos, len', got + 1, bitpos, bits', validBits')
      ensures more ==> Left(input, pos) < Left(input, old(pos)) || (pos == old(pos) && len' < len)
    {
      hide Field, Payload, ShiftLeft;
      bits', validBits', len' := bits, validBits, len;
      if len' == 0 {
        NewBlock(input, data, pos, got, bitpos, bits, validBits);
        len' := Get8();
        if len' == 0 {
          return false, bits', validBits', len';
        }
      }
      Fetch(input, data, pos, len', got, bitpos, bits, validBits);
      len' := len' - 1;
      var b := Get8();
      bits' := bits + ShiftLeft(b, validBits);
      validBits' := validBits + 8;
      more := true;
    }

    /** Reads the image data of a frame and draws it.  The outcome and what is emitted are
        those of the code stream that the sub-blocks hold. */
    method ProcessRaster() returns (ok: bool)
      requires Walking() && Painted() && emitted == [] && codes.Length == L.LINKS
      modifies this`pos, this`curX, this`curY, this`step, this`parse, this`emitted, codes, out
      ensures Walking() && Painted()
      ensures var cs := ByteAt(input, old(pos));
        if cs > 12 then !ok else Outcome(cs, Payload(input, After(input, old(pos)), 0), ok, emitted)
    {
      hide *;
      var cs := Get8();
      if cs > 12 {
        return false;
      }
      ghost var data := Payload(input, pos, 0);
      var clear := Pow2(cs);
      L.RootsFit(cs);
      InitCodes(clear);
      var first, oldcode: int := true, -1;
      var codesize: nat, avail: nat := cs + 1, clear + 2;
      var bits: nat, validBits: nat, len: nat := 0, 0, 0;
      ghost var n: nat, bitpos: nat, got: nat := 0, 0, 0;
      ghost var d := L.Cleared(cs, false);
      RunStart(cs, data);
      BufferStart(input, data, pos);
      AgreesCleared(cs, false);
      while true
        invariant Walking() && Painted() && 0 <= validBits
        invariant L.RunTo(cs, L.LINKS, true, data, n) == L.Going(bitpos, d, emitted)
        invariant Linked(codes[..], clear, d.table)
        invariant Agrees(d, clear, avail, codesize, oldcode, first)
        invariant Buffered(input, data, pos, len, got, bitpos, bits, validBits)
        decreases Left(input, pos), len, validBits
      {
        RunNext(cs, data, n, bitpos, d, emitted);
        AgreesFacts(d, clear, avail, codesize, oldcode, first);
        if validBits < codesize {
          BufferEnd(input, data, pos, len, got, bitpos, bits, validBits);
          RunOut(cs, data, bitpos, d, emitted);
          ok, bits, validBits, len := FetchByte(bits, validBits, len, data, got, bitpos);
          if !ok {
            Ends(cs, data, n + 1, emitted);
            return true;
          }
          got := got + 1;
        } else {
          Consume(input, data, pos, len, got, bitpos, bits, validBits, codesize);
          var code := LowBits(bits, codesize);
          bits := ShiftRight(bits, codesize);
          validBits := validBits - codesize;
          ghost var d0, out0, width := d, emitted, codesize;
          var done: bool;
          done, ok, avail, codesize, oldcode, first, d := OneCode(cs, code, clear, avail, codesize, oldcode, first, d);
          AfterCode(cs, data, n, bitpos, d0, out0, code, done, ok, emitted, d);
          if done {
            return;
          }
          bitpos := bitpos + width;
          n := n + 1;
        }
      }
    }

    /** Interprets one code.  The image ends, well or badly, or the decoder goes on. */
    method OneCode(cs: nat, code: nat, clear: nat, avail: nat, codesize: nat, oldcode: int, first: bool, ghost d: L.Dict)
      returns (done: bool, ok: bool, avail': nat, codesize': nat, oldcode': int, first': bool, ghost d': L.Dict)
      requires Walking() && Painted() && Linked(codes[..], clear, d.table)
      requires Agrees(d, clear, avail, codesize, oldcode, first)
      requires cs <= 12 && clear == Pow2(cs) && codes.Length == L.LINKS
      modifies this`curX, this`curY, this`step, this`parse, this`emitted, codes, out
      ensures Walking() && Painted()
      ensures Interpreted(L.CodeStep(cs, L.LINKS, true, d, code), done, ok, old(emitted), emitted, d')
      ensures !done ==> Linked(codes[..], clear, d'.table) && Agrees(d', clear, avail', codesize', oldcode', first')
    {
      hide Walking, Painted, Linked, Agrees, L.CodeStep, L.Cleared, Pow2;
      CodeCases(cs, d, code);
      AgreesFacts(d, clear, avail, codesize, oldcode, first);
      avail', codesize', oldcode', first', d' := avail, codesize, oldcode, first, d;
      done, ok := true, false;
      if code == clear {
        codesize', avail' := cs + 1, clear + 2;
        first', oldcode' := false, -1;
        ClearedLinks(codes[..], clear, cs, d.table);
        AgreesCleared(cs, true);
        d' := L.Cleared(cs, true);
        done := false;
      } else if code == clear + 1 {
        ok := true;
      } else if code <= avail {
        if first {
          return;
        }
        ok, avail', codesize', oldcode', d' := UseCode(cs, code, clear, avail, codesize, oldcode, d);
        done := !ok;
      }
    }

    /** Two bytes, the low one first. */
    method Get16() returns (v: nat)
      modifies this`pos
      ensures v == WordAt(input, old(pos)) && pos == Skip(input, old(pos), 2)
    {
      hide ByteAt, Skip, After;
      SkipNext(input, pos, 0);
      SkipNext(input, pos, 1);
      var z: nat := Get8();
      var y: nat := Get8();
      v := z + 256 * y;
    }

    /** Reads n entries of a colour table, red, green and blue of each. */
    method ParseColortable(pal: array<Colour>, n: nat, transp: int)
      requires n <= pal.Length
      modifies this`pos, pal
      ensures pos == Skip(input, old(pos), 3 * n)
      ensures forall i | 0 <= i < n :: IsEntry(input, old(pos), i, transp, pal[i])
      ensures forall i | n <= i < pal.Length :: pal[i] == old(pal[i])
    {
      hide ByteAt, Skip, After;
      SkipNext(input, pos, 0);
      for i := 0 to n
        invariant pos == Skip(input, old(pos), 3 * i)
        invariant forall j | 0 <= j < i :: IsEntry(input, old(pos), j, transp, pal[j])
        invariant forall j | i <= j < pal.Length :: pal[j] == old(pal[j])
      {
        SkipNext(input, old(pos), 3 * i);
        SkipNext(input, old(pos), 3 * i + 1);
        SkipNext(input, old(pos), 3 * i + 2);
        var red := Get8();
        var green := Get8();
        var blue := Get8();
        pal[i] := Colour(blue, green, red, if transp == i then 0 else 255);
      }
    }

    /** Reads the flags of an image and its colour table, if it has one. */
    method ReadTable(lpal: array<Colour>, global: Option<seq<Colour>>, transp: int)
      returns (ok: bool, interlaced: bool, colours: seq<Colour>)
      requires lpal.Length == 256 && (global.Some? ==> |global.value| == 256)
      modifies this`pos, lpal
      ensures var flags := ByteAt(input, old(pos));
        && interlaced == (flags / 64 % 2 == 1) && (ok <==> HasTable(flags) || global.Some?)
        && (ok ==> pos == Skip(input, old(pos), DataStart(flags) - 8) && IsPalette(input, old(pos) + 1, flags, global, transp, colours))
    {
      hide ByteAt, After, IsEntry, TableSize;
      ghost var p := pos;
      SkipNext(input, p, 0);
      var flags := Get8();
      interlaced, colours := flags / 64 % 2 == 1, [];
      if HasTable(flags) {
        ParseColortable(lpal, TableSize(flags), transp);
        colours := lpal[..];
        EntriesLater(input, p, TableSize(flags), transp, colours);
      } else if global.Some? {
        colours := global.value;
      } else {
        return false, interlaced, colours;
      }
      ok := true;
    }

    /** Decodes an image from its descriptor on.  What is painted has the colours of the file. */
    method LoadImage(lpal: array<Colour>, global: Option<seq<Colour>>, transp: int) returns (ok: bool)
      requires codes.Length == L.LINKS && lpal.Length == 256 && (global.Some? ==> |global.value| == 256)
      modifies this, codes, out, lpal
      ensures var p := old(pos);
        var x, y, w, h := WordAt(input, p), WordAt(input, p + 2), WordAt(input, p + 4), WordAt(input, p + 6);
        var path := Path(ByteAt(input, p + 8) / 64 % 2 == 1, x, y, w, h);
        && (ok ==> forall k | 0 <= k < |path| && k < |emitted| ::
            Inside(path[k]) && Shows(input, p, transp, global, emitted[k],
              old(out[path[k].row, path[k].col]), out[path[k].row, path[k].col]))
        && (ok ==> forall i, j | 0 <= i < out.Length0 && 0 <= j < out.Length1 ::
            !(y <= i < y + h && x <= j < x + w) ==> out[i, j] == old(out[i, j]))
      ensures var p := old(pos);
        var flags := ByteAt(input, p + 8);
        var q := Skip(input, p, DataStart(flags));
        var cs, data := ByteAt(input, q), Payload(input, After(input, q), 0);
        var good := WordAt(input, p) + WordAt(input, p + 4) <= out.Length1
          && WordAt(input, p + 2) + WordAt(input, p + 6) <= out.Length0 && (HasTable(flags) || global.Some?);
        2 <= cs <= 8 ==> (ok <==> good && L.Accepted(cs, data)) && (ok ==> L.Decodes(cs, data, emitted))
    {
      hide ByteAt, Path, L.Decodes, L.Accepted, Payload, TableSize, IsPalette, Shows, Skip, After;
      ghost var p := pos;
      var x := Get16();
      var y := Get16();
      var w := Get16();
      var h := Get16();
      WordsLater(input, p);
      if x + w > out.Length1 || y + h > out.Length0 {
        return false;
      }
      var interlaced, colours;
      ok, interlaced, colours := ReadTable(lpal, global, transp);
      if !ok {
        return;
      }
      ghost var flags := ByteAt(input, p + 8);
      PaletteMoved(input, p, flags, global, transp, colours);
      ok := LoadFrame(x, y, w, h, interlaced, colours);
      if ok {
        ghost var path := Path(interlaced, x, y, w, h);
        forall k | 0 <= k < |path| && k < |emitted|
          ensures Inside(path[k]) && Shows(input, p, transp, global, emitted[k],
            old(out[path[k].row, path[k].col]), out[path[k].row, path[k].col])
        {
          PaletteShows(input, p, transp, global, colours, emitted[k],
            old(out[path[k].row, path[k].col]), out[path[k].row, path[k].col]);
        }
      }
    }

    /** Decodes one frame whose descriptor gives the rectangle, the row order and the palette.
        What an accepted code stream stands for is drawn along the path of the rectangle, as
        far as both go. */
    method LoadFrame(x: nat, y: nat, w: nat, h: nat, interlaced: bool, colours: seq<Colour>) returns (ok: bool)
      requires codes.Length == L.LINKS && |colours| == 256
      modifies this, codes, out
      ensures x + w > out.Length1 || y + h > out.Length0 ==> !ok
      ensures ByteAt(input, old(pos)) > 12 ==> !ok
      ensures var cs := ByteAt(input, old(pos));
        var data := Payload(input, After(input, old(pos)), 0);
        x + w <= out.Length1 && y + h <= out.Length0 && 2 <= cs <= 8 ==>
          (ok <==> L.Accepted(cs, data)) && (ok ==> L.Decodes(cs, data, emitted))
      ensures var p := Path(interlaced, x, y, w, h);
        ok ==> forall k | 0 <= k < |p| && k < |emitted| ::
          var c := colours[emitted[k]];
          Inside(p[k]) && out[p[k].row, p[k].col] ==
            if c.alpha > 128 then Colour(c.c2, c.c1, c.c0, c.alpha) else old(out[p[k].row, p[k].col])
      ensures ok ==> forall i, j | 0 <= i < out.Length0 && 0 <= j < out.Length1 ::
        !(y <= i < y + h && x <= j < x + w) ==> out[i, j] == old(out[i, j])
    {
      hide Walking, Painted, Path, L.Decodes, L.Accepted, Outcome, Payload;
      if x + w > out.Length1 || y + h > out.Length0 {
        return false;
      }
      StartFrame(x, y, w, h, interlaced, colours);
      ok := ProcessRaster();
      if ok {
        Drawn(interlaced, x, y, w, h);
      }
      var cs := ByteAt(input, old(pos));
      if 2 <= cs <= 8 {
        StandardText(cs, Payload(input, After(input, old(pos)), 0), ok, emitted);
      }
    }

    /** Sets the walk to the start of the rectangle. */
    method StartFrame(x: nat, y: nat, w: nat, h: nat, interlaced: bool, colours: seq<Colour>)
      requires codes.Length == L.LINKS && |colours| == 256
      requires x + w <= out.Length1 && y + h <= out.Length0
      modifies this
      ensures Walking() && Painted() && pos == old(pos)
      ensures palette == colours && path == Path(interlaced, x, y, w, h) && emitted == [] && origin == Snapshot()
    {
      hide *;
      palette := colours;
      SetWalk(x, y, w, h, interlaced);
      path, emitted, origin := Path(interlaced, x, y, w, h), [], Snapshot();
      AtStart(interlaced, x, y, w, h);
    }

    method SetWalk(x: nat, y: nat, w: nat, h: nat, interlaced: bool)
      modifies this`startX, this`startY, this`maxX, this`maxY, this`curX, this`curY, this`step, this`parse
      ensures startX == x && startY == y && maxX == x + w && maxY == y + h
      ensures curX == x && curY == if w == 0 then y + h else y
      ensures if interlaced then step == 8 && parse == 3 else step == 1 && parse == 0
    {
      startX, startY, maxX, maxY := x, y, x + w, y + h;
      curX, curY := startX, startY;
      if w == 0 {
        curY := maxY;
      }
      if interlaced {
        step, parse := 8, 3;
      } else {
        step, parse := 1, 0;
      }
    }

    /** Before the first pixel the whole path remains. */
    lemma WholePath(interlaced: bool, x: nat, y: nat, w: nat, h: nat)
      requires startX == x && startY == y && maxX == x + w && maxY == y + h
      requires curX == x && curY == (if w == 0 then y + h else y)
      requires if interlaced then step == 8 && parse == 3 else step == 1 && parse == 0
      ensures Remaining() == Path(interlaced, x, y, w, h)
    {
      hide Range, PassRows, Cells, RowCells, RowsFrom, RowOrder;
      RowsStart(h);
      RowsNext(0, step, parse, h);
      CellsCons(0, RowsFrom(step, step, parse, h), y, x, x + w);
      EmptyPath(interlaced, x, y, w, h);
    }

    lemma EmptyPath(interlaced: bool, x: int, y: int, w: nat, h: nat)
      ensures w == 0 || h == 0 ==> Path(interlaced, x, y, w, h) == []
    {
      hide Path;
      PathPermutes(interlaced, x, y, w, h);
      var p := Path(interlaced, x, y, w, h);
      assert p == [] || p[0] in p;
    }

    lemma AtStart(interlaced: bool, x: nat, y: nat, w: nat, h: nat)
      requires startX == x && startY == y && maxX == x + w && maxY == y + h
      requires curX == x && curY == (if w == 0 then y + h else y)
      requires if interlaced then step == 8 && parse == 3 else step == 1 && parse == 0
      requires path == Path(interlaced, x, y, w, h) && emitted == [] && origin == Snapshot()
      requires codes.Length == L.LINKS && |palette| == 256
      requires x + w <= out.Length1 && y + h <= out.Length0
      ensures Walking() && Painted()
    {
      hide Remaining, Path;
      WholePath(interlaced, x, y, w, h);
    }

    /** What the output shows when the walk stops. */
    lemma Drawn(interlaced: bool, x: nat, y: nat, w: nat, h: nat)
      requires Walking() && Painted() && path == Path(interlaced, x, y, w, h)
      requires x + w <= out.Length1 && y + h <= out.Length0
      ensures forall k | 0 <= k < |path| && k < |emitted| ::
        var c := palette[emitted[k]];
        Inside(path[k]) && out[path[k].row, path[k].col] ==
          if c.alpha > 128 then SwapRedBlue(c) else origin[path[k].row][path[k].col]
      ensures forall i, j | 0 <= i < out.Length0 && 0 <= j < out.Length1 ::
        !(y <= i < y + h && x <= j < x + w) ==> out[i, j] == origin[i][j]
    {
      hide Image, Path, Remaining, Distinct;
      PathPermutes(interlaced, x, y, w, h);
      forall k | 0 <= k < |path| && k < |emitted|
        ensures var c := palette[emitted[k]];
          Inside(path[k]) && out[path[k].row, path[k].col] ==
            if c.alpha > 128 then SwapRedBlue(c) else origin[path[k].row][path[k].col]
      {
        assert path[k] in path;
        ImageAt(palette, path, emitted, Visited(), k, origin[path[k].row][path[k].col]);
      }
      forall i, j | 0 <= i < out.Length0 && 0 <= j < out.Length1
        ensures !(y <= i < y + h && x <= j < x + w) ==> out[i, j] == origin[i][j]
      {
        if !(y <= i < y + h && x <= j < x + w) {
          ImageOff(palette, path, emitted, Visited(), Cell(i, j), origin[i][j]);
        }
      }
    }

    predicate Inside(z: Cell) {
      0 <= z.row < out.Length0 && 0 <= z.col < out.Length1
    }

    /** Enters, writes and remembers one code that has a string. */
    method UseCode(ghost cs: nat, code: nat, clear: nat, avail: nat, codesize: nat, oldcode: int, ghost d: L.Dict)
      returns (ok: bool, avail': nat, codesize': nat, oldcode': int, ghost d': L.Dict)
      requires Walking() && Painted() && Linked(codes[..], clear, d.table)
      requires Agrees(d, clear, avail, codesize, oldcode, false)
      requires clear == Pow2(cs) && Real(code, clear) && code <= avail && codes.Length == L.LINKS
      modifies this`curX, this`curY, this`step, this`parse, this`emitted, codes, out
      ensures Walking() && Painted()
      ensures var s := L.CodeStep(cs, L.LINKS, true, d, code);
        if ok then
          s.Emit? && s.dict == d' && emitted == old(emitted) + s.text
          && Linked(codes[..], clear, d'.table) && Agrees(d', clear, avail', codesize', oldcode', false)
        else s.Bad?
    {
      hide Walking, Painted, Linked;
      avail', codesize', oldcode', d' := avail, codesize, oldcode, d;
      UseCases(cs, d, code);
      if oldcode >= 0 {
        avail' := avail + 1;
        if avail' > L.LINKS {
          return false, avail', codesize', oldcode', d';
        }
        AddEntry(avail, code, oldcode, clear, d.table);
        d' := L.CodeStep(cs, L.LINKS, true, d, code).dict;
      } else if code == avail {
        return false, avail', codesize', oldcode', d';
      } else {
        RootText(codes[..], clear, d.table, code);
        d' := L.CodeStep(cs, L.LINKS, true, d, code).dict;
      }
      L.WidthMax(avail', codesize);
      RootsStay(d.table, d'.table, clear);
      OutCode(code, clear, d'.table);
      if LowBits(avail', codesize) == 0 && avail' <= 0x0FFF {
        codesize' := codesize + 1;
      }
      oldcode' := code;
      ok := true;
    }

    lemma NoneRemain()
      requires Shape() && curY >= maxY
      ensures Remaining() == []
    {
    }
  }

  lemma EntriesLater(input: seq<byte>, p: nat, n: nat, transp: int, colours: seq<Colour>)
    requires n <= |colours| && forall i | 0 <= i < n :: IsEntry(input, Skip(input, p, 1), i, transp, colours[i])
    ensures forall i | 0 <= i < n :: IsEntry(input, p + 1, i, transp, colours[i])
    ensures Skip(input, Skip(input, p, 1), 3 * n) == Skip(input, p, 1 + 3 * n)
  {
  }

  lemma WordsLater(input: seq<byte>, p: nat)
    ensures WordAt(input, Skip(input, p, 2)) == WordAt(input, p + 2)
    ensures WordAt(input, Skip(input, Skip(input, p, 2), 2)) == WordAt(input, p + 4)
    ensures WordAt(input, Skip(input, Skip(input, Skip(input, p, 2), 2), 2)) == WordAt(input, p + 6)
    ensures Skip(input, Skip(input, Skip(input, Skip(input, p, 2), 2), 2), 2) == Skip(input, p, 8)
    ensures ByteAt(input, Skip(input, p, 8)) == ByteAt(input, p + 8)
  {
  }

  lemma PaletteMoved(input: seq<byte>, p: nat, flags: byte, global: Option<seq<Colour>>, transp: int, colours: seq<Colour>)
    requires IsPalette(input, Skip(input, p, 8) + 1, flags, global, transp, colours)
    ensures IsPalette(input, p + 9, flags, global, transp, colours) && |colours| == 256
    ensures Skip(input, Skip(input, p, 8), DataStart(flags) - 8) == Skip(input, p, DataStart(flags))
  {
    hide TableSize;
    if HasTable(flags) {
      forall i | 0 <= i < TableSize(flags)
        ensures IsEntry(input, p + 9, i, transp, colours[i])
      {
        EntryMoved(input, p, i, transp, colours[i]);
      }
    }
  }

  lemma EntryMoved(input: seq<byte>, p: nat, i: nat, transp: int, c: Colour)
    requires IsEntry(input, Skip(input, p, 8) + 1, i, transp, c)
    ensures IsEntry(input, p + 9, i, transp, c)
  {
  }

  lemma PaletteShows(input: seq<byte>, p: nat, transp: int, global: Option<seq<Colour>>, colours: seq<Colour>, e: byte,
    before: Colour, now: Colour)
    requires IsPalette(input, p + 9, ByteAt(input, p + 8), global, transp, colours)
    requires var c := colours[e];
      now == if c.alpha > 128 then Colour(c.c2, c.c1, c.c0, c.alpha) else before
    ensures (global.Some? ==> |global.value| == 256) ==> Shows(input, p, transp, global, e, before, now)
  {
    hide TableSize, ByteAt;
  }

  /** The decoder's variables are those of the table. */
  ghost predicate Agrees(d: L.Dict, clear: nat, avail: nat, codesize: nat, oldcode: int, first: bool) {
    && avail == |d.table| && clear + 2 <= avail <= L.LINKS && RootsKept(d.table, clear)
    && codesize == d.width && 1 <= codesize <= 13
    && first == !d.open
    && (oldcode == -1 ==> d.prev == [] && avail == clear + 2)
    && (oldcode != -1 ==> 0 <= oldcode < avail && Real(oldcode, clear) && d.prev == d.table[oldcode] && d.prev != [])
  }

  lemma AgreesFacts(d: L.Dict, clear: nat, avail: nat, codesize: nat, oldcode: int, first: bool)
    requires Agrees(d, clear, avail, codesize, oldcode, first)
    ensures avail == |d.table| && codesize == d.width >= 1 && first == !d.open && RootsKept(d.table, clear)
  {
  }

  lemma AgreesCleared(cs: nat, open: bool)
    requires cs <= 12
    ensures Agrees(L.Cleared(cs, open), Pow2(cs), Pow2(cs) + 2, cs + 1, -1, !open)
    ensures L.Cleared(cs, open).table == L.Roots(Pow2(cs)) + [[], []]
  {
    hide Pow2;
    Pow2Mono(cs, 12);
    L.TwelveBits();
    var t := L.Roots(Pow2(cs)) + [[], []];
    assert t[..|t|] == t;
  }

  /** The bit buffer holds the data bits from bitpos on, of got bytes fetched so far. */
  ghost predicate Buffered(input: seq<byte>, data: seq<byte>, pos: nat, len: nat,
    got: nat, bitpos: nat, bits: nat, validBits: nat)
  {
    && got <= |data| && data[got..] == Payload(input, pos, len)
    && bitpos + validBits == 8 * got && bits == Field(data, bitpos, validBits)
  }

  function Left(input: seq<byte>, p: nat): nat {
    if p < |input| then |input| - p else 0
  }

  /** How the image ends: as its code stream does. */
  ghost predicate Outcome(cs: nat, data: seq<byte>, ok: bool, out: seq<byte>) {
    if ok then exists n: nat :: L.RunTo(cs, L.LINKS, true, data, n) == L.Ended(out)
    else exists n: nat :: L.RunTo(cs, L.LINKS, true, data, n).Failed?
  }

  /** The decoder does with a code what the code stands for. */
  ghost predicate Interpreted(s: L.Step, done: bool, ok: bool, before: seq<byte>, after: seq<byte>, d: L.Dict) {
    match s
    case Bad => done && !ok
    case End => done && ok && after == before
    case Clear(d') => !done && d == d' && after == before
    case Emit(text, d') => !done && d == d' && after == before + text
  }

  lemma AfterCode(cs: nat, data: seq<byte>, n: nat, pos: nat, d: L.Dict, before: seq<byte>, code: nat,
    done: bool, ok: bool, after: seq<byte>, d': L.Dict)
    requires L.RunTo(cs, L.LINKS, true, data, n) == L.Going(pos, d, before)
    requires pos + d.width <= 8 * |data| && code == Field(data, pos, d.width)
    requires Interpreted(L.CodeStep(cs, L.LINKS, true, d, code), done, ok, before, after, d')
    ensures if done then Outcome(cs, data, ok, after)
      else L.RunTo(cs, L.LINKS, true, data, n + 1) == L.Going(pos + d.width, d', after)
  {
    hide L.RunTo, L.CodeStep, Field;
    RunNext(cs, data, n, pos, d, before);
    assert !done || L.RunTo(cs, L.LINKS, true, data, n + 1) == if ok then L.Ended(after) else L.Failed;
  }

  lemma Ends(cs: nat, data: seq<byte>, n: nat, out: seq<byte>)
    requires L.RunTo(cs, L.LINKS, true, data, n) == L.Ended(out)
    ensures Outcome(cs, data, true, out)
  {
    hide L.RunTo;
  }

  lemma BufferStart(input: seq<byte>, data: seq<byte>, pos: nat)
    requires data == Payload(input, pos, 0)
    ensures Buffered(input, data, pos, 0, 0, 0, 0, 0)
  {
    hide Payload;
    FieldNone(data, 0);
    assert data[0..] == data;
  }

  lemma BufferEnd(input: seq<byte>, data: seq<byte>, pos: nat, len: nat, got: nat, bitpos: nat, bits: nat, validBits: nat)
    requires Buffered(input, data, pos, len, got, bitpos, bits, validBits)
    ensures bitpos + validBits == 8 * got
  {
  }

  /** Running out of data. */
  lemma RunOut(cs: nat, data: seq<byte>, pos: nat, d: L.Dict, out: seq<byte>)
    ensures pos + d.width > 8 * |data| ==> L.RunStep(cs, L.LINKS, true, data, pos, d, out) == L.Ended(out)
  {
  }

  lemma RunStart(cs: nat, data: seq<byte>)
    ensures L.RunTo(cs, L.LINKS, true, data, 0) == L.Going(0, L.Cleared(cs, false), [])
  {
  }

  lemma RunNext(cs: nat, data: seq<byte>, n: nat, pos: nat, d: L.Dict, out: seq<byte>)
    requires L.RunTo(cs, L.LINKS, true, data, n) == L.Going(pos, d, out)
    ensures L.RunTo(cs, L.LINKS, true, data, n + 1) == L.RunStep(cs, L.LINKS, true, data, pos, d, out)
  {
    hide L.RunStep;
  }

  lemma NewBlock(input: seq<byte>, data: seq<byte>, pos: nat, got: nat, bitpos: nat, bits: nat, validBits: nat)
    requires Buffered(input, data, pos, 0, got, bitpos, bits, validBits)
    ensures if ByteAt(input, pos) == 0 then got == |data|
      else Buffered(input, data, After(input, pos), ByteAt(input, pos), got, bitpos, bits, validBits)
  {
    hide Field;
  }

  lemma Fetch(input: seq<byte>, data: seq<byte>, pos: nat, len: nat, got: nat, bitpos: nat, bits: nat, validBits: nat)
    requires Buffered(input, data, pos, len, got, bitpos, bits, validBits) && len > 0
    ensures Buffered(input, data, After(input, pos), len - 1, got + 1, bitpos,
      bits + ShiftLeft(ByteAt(input, pos), validBits), validBits + 8)
  {
    hide Field;
    assert data[got..][0] == ByteAt(input, pos);
    assert data[got + 1..] == data[got..][1..];
    FieldByte(data, got);
    FieldSplit(data, bitpos, validBits, 8);
  }

  lemma Consume(input: seq<byte>, data: seq<byte>, pos: nat, len: nat, got: nat, bitpos: nat, bits: nat,
    validBits: nat, width: nat)
    requires Buffered(input, data, pos, len, got, bitpos, bits, validBits) && width <= validBits
    ensures LowBits(bits, width) == Field(data, bitpos, width) && bitpos + width <= 8 * |data|
    ensures Buffered(input, data, pos, len, got, bitpos + width, ShiftRight(bits, width), validBits - width)
  {
    hide Field, Payload;
    FieldCut(data, bitpos, width, validBits - width);
    assert width + (validBits - width) == validBits;
  }

  lemma CodeCases(cs: nat, d: L.Dict, code: nat)
    ensures var s := L.CodeStep(cs, L.LINKS, true, d, code);
      (code == Pow2(cs) ==> s == L.Clear(L.Cleared(cs, true)))
      && (code == Pow2(cs) + 1 ==> s.End?)
      && (code != Pow2(cs) && code != Pow2(cs) + 1 ==>
           (!d.open ==> s.Bad?) && (code > |d.table| ==> s.Bad?))
  {
  }

  lemma UseCases(cs: nat, d: L.Dict, code: nat)
    requires d.open && code != Pow2(cs) && code != Pow2(cs) + 1 && code <= |d.table|
    ensures var s := L.CodeStep(cs, L.LINKS, true, d, code);
      if d.prev == [] then
        if code < Pow2(cs) && code < |d.table|
        then s == L.Emit(d.table[code], L.Grown(d.table, d.width, d.table[code])) else s.Bad?
      else
        var text := if code < |d.table| then d.table[code] else d.prev + [d.prev[0]];
        if text == [] || |d.table| >= L.LINKS then s.Bad?
        else s == L.Emit(text, L.Grown(d.table + [d.prev + [text[0]]], d.width, text))
  {
  }

  lemma RootText(codes: seq<Link>, clear: nat, table: seq<seq<byte>>, code: nat)
    requires Linked(codes, clear, table) && code < |table| && Real(code, clear)
    ensures table[code] != []
  {
    assert LinkIs(codes, clear, table, code);
  }

  /** The roots are never overwritten. */
  predicate RootsKept(table: seq<seq<byte>>, clear: nat) {
    clear + 2 <= |table| && table[..clear + 2] == L.Roots(clear) + [[], []]
  }

  lemma RootsStay(table: seq<seq<byte>>, table': seq<seq<byte>>, clear: nat)
    requires RootsKept(table, clear) && table <= table'
    ensures RootsKept(table', clear)
  {
    assert table'[..clear + 2] == table[..clear + 2];
  }

  lemma StandardText(cs: nat, data: seq<byte>, ok: bool, out: seq<byte>)
    requires 2 <= cs <= 8 && Outcome(cs, data, ok, out)
    ensures ok <==> L.Accepted(cs, data)
    ensures ok ==> L.Decodes(cs, data, out)
  {
    hide L.RunTo, L.Accepted, L.Decodes;
    if ok {
      var n: nat :| L.RunTo(cs, L.LINKS, true, data, n) == L.Ended(out);
      L.Delivered(cs, data, n, out);
    } else {
      var n: nat :| L.RunTo(cs, L.LINKS, true, data, n).Failed?;
      L.Refused(cs, data, n);
    }
  }

  /** Cells off the path are left alone. */
  lemma {:induction false} ImageOff(palette: seq<Colour>, path: seq<Cell>, indices: seq<byte>, n: nat, z: Cell, base: Colour)
    requires |palette| == 256 && n <= |path| && n <= |indices| && z !in path
    ensures Image(palette, path, indices, n, z, base) == base
  {
    if n == 0 {
    } else {
      ImageOff(palette, path, indices, n - 1, z, base);
    }
  }

  /** After a clear code the roots are linked as they were at first. */
  lemma ClearedLinks(codes: seq<Link>, clear: nat, cs: nat, table: seq<seq<byte>>)
    requires clear == Pow2(cs) && Linked(codes, clear, table) && RootsKept(table, clear)
    ensures Linked(codes, clear, L.Cleared(cs, true).table)
  {
    var roots := L.Roots(clear) + [[], []];
    forall c: nat | c < |roots| && Real(c, clear)
      ensures LinkIs(codes, clear, roots, c)
    {
      assert LinkIs(codes, clear, table, c) && roots[c] == table[c];
    }
  }

  predicate Real(code: nat, clear: nat) {
    code != clear && code != clear + 1
  }

  /** The links of a code spell its string; its prefix is an earlier code. */
  ghost predicate LinkIs(codes: seq<Link>, clear: nat, table: seq<seq<byte>>, c: nat)
    requires c < |table| <= |codes|
  {
    var l := codes[c];
    && table[c] != [] && l.first == table[c][0]
    && -1 <= l.prefix < c
    && (l.prefix == -1 ==> table[c] == [l.suffix])
    && (l.prefix >= 0 ==> Real(l.prefix, clear) && table[c] == table[l.prefix] + [l.suffix])
  }

  ghost predicate Linked(codes: seq<Link>, clear: nat, table: seq<seq<byte>>) {
    |table| <= |codes| && forall c: nat | c < |table| && Real(c, clear) :: LinkIs(codes, clear, table, c)
  }

  lemma LinkedSnoc(codes: seq<Link>, codes': seq<Link>, clear: nat, table: seq<seq<byte>>, text: seq<byte>)
    requires Linked(codes, clear, table) && |table| < |codes| == |codes'|
    requires forall c | 0 <= c < |table| :: codes'[c] == codes[c]
    requires LinkIs(codes', clear, table + [text], |table|)
    ensures Linked(codes', clear, table + [text])
  {
    forall c: nat | c < |table + [text]| && Real(c, clear)
      ensures LinkIs(codes', clear, table + [text], c)
    {
      if c < |table| {
        assert LinkIs(codes, clear, table, c);
      }
    }
  }

  /** The rest of the path is its end, and one index was emitted for each cell before it, or
      more when nothing is left. */
  ghost predicate OnPath(path: seq<Cell>, rest: seq<Cell>, emitted: nat) {
    && |rest| <= |path| && rest == path[|path| - |rest|..]
    && emitted + |rest| >= |path|
    && (rest != [] ==> emitted + |rest| == |path|)
  }

  lemma PathStep(path: seq<Cell>, rest: seq<Cell>, rest': seq<Cell>, emitted: nat, here: Cell)
    requires OnPath(path, rest, emitted) && rest == [here] + rest'
    ensures OnPath(path, rest', emitted + 1) && path[|path| - |rest|] == here && emitted == |path| - |rest|
  {
    assert rest' == path[|path| - |rest'|..];
  }

  lemma ImageStep(palette: seq<Colour>, path: seq<Cell>, indices: seq<byte>, n: nat)
    requires |palette| == 256 && n < |path| && n < |indices|
    ensures forall z, base :: (Image(palette, path, indices, n + 1, z, base) ==
      (if path[n] == z && palette[indices[n]].alpha > 128 then SwapRedBlue(palette[indices[n]])
       else Image(palette, path, indices, n, z, base)))
  {
    var m := n + 1;
    forall z, base
      ensures Image(palette, path, indices, m, z, base) ==
        if path[n] == z && palette[indices[n]].alpha > 128 then SwapRedBlue(palette[indices[n]])
        else Image(palette, path, indices, n, z, base)
    {
    }
  }

  lemma CellsCons(r: int, rows: seq<int>, top: int, left: int, right: int)
    ensures Cells([r] + rows, top, left, right) == RowCells(top + r, left, right) + Cells(rows, top, left, right)
    ensures Cells([], top, left, right) == []
  {
    assert ([r] + rows)[1..] == rows;
  }

  lemma PassShift(parse: nat)
    requires 1 <= parse <= 3
    ensures Pow2(parse) == PassStep(4 - parse) && Pow2(parse) / 2 == PassFirst(4 - parse) >= 0
  {
  }

  lemma RowCellsStep(row: int, c: int, e: int)
    ensures RowCells(row, c, e) == if c < e then [Cell(row, c)] + RowCells(row, c + 1, e) else []
  {
  }

  lemma {:induction false} ImagesExtend(palette: seq<Colour>, path: seq<Cell>, indices: seq<byte>, b: byte, n: nat)
    requires |palette| == 256 && n <= |path| && n <= |indices|
    ensures forall z, base ::
      Image(palette, path, indices + [b], n, z, base) == Image(palette, path, indices, n, z, base)
  {
    if n == 0 {
    } else {
      ImagesExtend(palette, path, indices, b, n - 1);
    }
  }
}
