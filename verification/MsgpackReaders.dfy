/** The MessagePack reader of src/nats_message_decode.cpp: a cursor over the payload that skips values and extracts
    requested paths into a row. */
module MsgpackReaders {
  import opened Options
  import opened Bytes
  import opened Projection
  import opened Wire
  import opened Formats
  import opened Extraction

  class MsgpackReader {
    const payload: Bytes
    const floatText: FloatText
    var data: nat
    var remaining: nat

    predicate Valid()
      reads this
    {
      data + remaining == |payload|
    }

    function F(): Format {
      Msgpack(floatText)
    }

    constructor (payload: Bytes, floatText: FloatText)
      ensures Valid() && this.payload == payload && this.floatText == floatText && data == 0
    {
      this.payload, this.floatText, data, remaining := payload, floatText, 0, |payload|;
    }

    method ReadByte() returns (ok: bool, value: byte)
      requires Valid()
      modifies this
      ensures Valid() && ok == (old(remaining) > 0)
      ensures if ok then data == old(data) + 1 && value == payload[old(data)] else data == old(data)
    {
      if remaining == 0 {
        return false, 0;
      }
      value := payload[data];
      data, remaining := data + 1, remaining - 1;
      ok := true;
    }

    method ReadUnsigned(width: nat) returns (ok: bool, value: nat)
      requires Valid()
      modifies this
      ensures Valid() && ok == (width <= old(remaining) && width <= 8)
      ensures if ok then data == old(data) + width && value == FromBigEndian(payload[old(data)..data]) && value < TWO64
              else data == old(data)
    {
      value := 0;
      if width > remaining || width > 8 {
        return false, 0;
      }
      for i := 0 to width
        invariant data == old(data) + i && remaining == old(remaining) && data <= |payload|
        invariant value == FromBigEndian(payload[old(data)..data])
      {
        assert payload[old(data)..data + 1][..i] == payload[old(data)..data];
        value := value * 256 + payload[data];
        data := data + 1;
      }
      remaining := remaining - width;
      Fits(payload[old(data)..data]);
      ok := true;
    }

    /** The text behind a tag, and where the cursor stays when there is none, or less of it than announced. */
    lemma TextBehind(i: nat, tag: byte)
      requires i <= |payload|
      ensures var width := if tag == 0xd9 then 1 else if tag == 0xda then 2 else if tag == 0xdb then 4 else 0;
              TextAt(F(), payload, i, tag)
              == if (!(0xa0 <= tag < 0xc0) && width == 0) || width > |payload| - i then NotRead(i)
                 else
                   var n, start := if width == 0 then tag % 32 else FromBigEndian(payload[i..i + width]), i + width;
                   if n > |payload| - start then NotRead(start) else Read(Text(payload[start..start + n]), start + n)
    {
    }

    /** The text whose tag has been read. */
    method ReadStringView(tag: byte) returns (ok: bool, value: Bytes)
      requires Valid()
      modifies this
      ensures Valid()
      ensures var text := TextAt(F(), payload, old(data), tag);
              data == text.end && ok == text.Read? && (ok ==> text.cell == Text(value))
    {
      TextBehind(data, tag);
      var length: nat;
      if 0xa0 <= tag < 0xc0 {
        length := tag % 32;
      } else if tag == 0xd9 || tag == 0xda || tag == 0xdb {
        ok, length := ReadUnsigned(if tag == 0xd9 then 1 else if tag == 0xda then 2 else 4);
        if !ok {
          return false, [];
        }
      } else {
        return false, [];
      }
      if length > remaining {
        return false, [];
      }
      value := payload[data..data + length];
      data, remaining := data + length, remaining - length;
      ok := true;
    }

    /** Writes the scalar whose tag has been read to a cell of the row. */
    method ReadScalarToVector(tag: byte, row: array<Cell>, column: nat) returns (ok: bool)
      requires Valid() && column < row.Length
      modifies this, row
      ensures Valid()
      ensures var scalar := ScalarAt(F(), payload, old(data), tag);
              && data == scalar.end && ok == scalar.Read?
              && row[..] == if ok then old(row[..])[column := scalar.cell] else old(row[..])
    {
      if 0xa0 <= tag < 0xc0 || tag == 0xd9 || tag == 0xda || tag == 0xdb {
        var value;
        ok, value := ReadStringView(tag);
        if !ok {
          return false;
        }
        row[column] := Text(value);
        return true;
      }
      var buffer: Bytes;
      if tag <= 0x7f {
        buffer := Decimal(tag);
      } else if tag >= 0xe0 {
        buffer := Decimal(AsSigned(tag, 0x80));
      } else {
        match tag {
          case 0xc0 =>
            row[column] := Null;
            return true;
          case 0xc2 =>
            buffer := FALSE_TEXT;
          case 0xc3 =>
            buffer := TRUE_TEXT;
          case _ =>
            ok, buffer := ReadNumber(tag);
            if !ok {
              return false;
            }
        }
      }
      row[column] := Text(buffer);
      return true;
    }

    /** The text of an integer or float with argument bytes. */
    method ReadNumber(tag: byte) returns (ok: bool, buffer: Bytes)
      requires Valid() && 0x80 <= tag < 0xe0 && tag !in {0xc0, 0xc2, 0xc3} && !IsText(MsgpackShape(tag))
      modifies this
      ensures Valid()
      ensures var scalar := ScalarAt(F(), payload, old(data), tag);
              data == scalar.end && ok == scalar.Read? && (ok ==> scalar.cell == Text(buffer))
    {
      var number: nat;
      buffer := [];
      if 0xcc <= tag <= 0xcf {
        ok, number := ReadUnsigned(if tag == 0xcc then 1 else if tag == 0xcd then 2 else if tag == 0xce then 4 else 8);
        buffer := Decimal(number);
      } else if 0xd0 <= tag <= 0xd3 {
        ok, number := ReadUnsigned(if tag == 0xd0 then 1 else if tag == 0xd1 then 2 else if tag == 0xd2 then 4 else 8);
        var half := if tag == 0xd0 then 0x80 else if tag == 0xd1 then 0x8000
                    else if tag == 0xd2 then 0x8000_0000 else TWO63;
        buffer := Decimal(AsSigned(number, half));
      } else if tag == 0xca {
        ok, number := ReadUnsigned(4);
        buffer := floatText(Single, number);
      } else if tag == 0xcb {
        ok, number := ReadUnsigned(8);
        buffer := floatText(Double, number);
      } else {
        ok := false;
      }
    }

    method ReadMapCount(tag: byte) returns (ok: bool, count: nat)
      requires Valid() && IsMap(MsgpackShape(tag))
      modifies this
      ensures Valid()
      ensures match MapHead(F(), payload, old(data), tag)
              case None => !ok && data == old(data)
              case Some((start, n)) => ok && data == start && count == n
    {
      if tag < 0x90 {
        return true, tag % 16;
      }
      ok, count := ReadUnsigned(if tag == 0xde then 2 else 4);
    }

    method SkipValue(depth: nat) returns (ok: bool)
      requires Valid()
      modifies this
      ensures Valid() && data >= old(data)
      ensures var end := SkipItems(F(), payload, old(data), 1, depth); ok == end.Some? && (ok ==> data == end.value)
      decreases remaining, 0
    {
      var tag;
      ok, tag := ReadByte();
      if ok {
        ok := SkipValueAfterTag(tag, depth);
      }
    }

    method SkipValues(count: nat, depth: nat) returns (ok: bool)
      requires Valid()
      modifies this
      ensures Valid() && data >= old(data)
      ensures var end := SkipItems(F(), payload, old(data), count, depth); ok == end.Some? && (ok ==> data == end.value)
      decreases remaining, 1
    {
      ghost var end := SkipItems(F(), payload, data, count, depth);
      for i := 0 to count
        invariant Valid() && data >= old(data)
        invariant end == SkipItems(F(), payload, data, count - i, depth)
      {
        SkipOne(F(), payload, data, count - i, depth);
        ok := SkipValue(depth);
        if !ok {
          return false;
        }
      }
      ok := true;
    }

    /** Jumps over `bytes` bytes if there are that many. */
    method Advance(bytes: nat) returns (ok: bool)
      requires Valid()
      modifies this
      ensures Valid() && ok == (bytes <= old(remaining)) && data == if ok then old(data) + bytes else old(data)
    {
      ok := bytes <= remaining;
      if ok {
        data, remaining := data + bytes, remaining - bytes;
      }
    }

    method SkipValueAfterTag(tag: byte, depth: nat) returns (ok: bool)
      requires Valid()
      modifies this
      ensures Valid() && data >= old(data)
      ensures var end := SkipAt(F(), payload, old(data), tag, depth); ok == end.Some? && (ok ==> data == end.value)
      decreases remaining, 3
    {
      if depth > MAX_DECODE_DEPTH {
        return false;
      }
      if tag <= 0x7f || tag >= 0xe0 {
        return true;
      }
      if 0xa0 <= tag < 0xc0 {
        ok := Advance(tag % 32);
        return;
      }
      if tag < 0xa0 || tag in {0xdc, 0xdd, 0xde, 0xdf} {
        ok := SkipElements(tag, depth + 1);
      } else {
        ok := SkipSized(tag);
      }
    }

    /** The remaining tags: nothing, a fixed number of bytes, or as many as the argument says. */
    method SkipSized(tag: byte) returns (ok: bool)
      requires Valid() && 0xc0 <= tag < 0xdc
      modifies this
      ensures Valid() && data >= old(data)
      ensures HeadAt(F(), payload, old(data), tag) == if ok then Jump(data) else Bad
    {
      var bytes := 0;
      if tag in {0xc0, 0xc2, 0xc3} {
        return true;
      } else if tag in {0xcc, 0xd0} {
        bytes := 1;
      } else if tag in {0xcd, 0xd1} {
        bytes := 2;
      } else if tag in {0xce, 0xd2, 0xca} {
        bytes := 4;
      } else if tag in {0xcf, 0xd3, 0xcb} {
        bytes := 8;
      } else if tag in {0xd9, 0xc4, 0xda, 0xc5, 0xdb, 0xc6} {
        ok, bytes := ReadUnsigned(if tag in {0xd9, 0xc4} then 1 else if tag in {0xda, 0xc5} then 2 else 4);
        if !ok {
          return false;
        }
      } else {
        return false;
      }
      ok := Advance(bytes);
    }

    /** The elements of an array whose tag has been read, or the keys and values of a map. */
    method SkipElements(tag: byte, depth: nat) returns (ok: bool)
      requires Valid() && MsgpackShape(tag).Nest?
      modifies this
      ensures Valid() && data >= old(data)
      ensures var head := HeadAt(F(), payload, old(data), tag);
              var end := if head.Into? then SkipItems(F(), payload, head.start, head.count, depth) else None;
              ok == end.Some? && (ok ==> data == end.value)
      decreases remaining, 2
    {
      var count: nat;
      if tag < 0x90 || tag == 0xde || tag == 0xdf {
        ok, count := ReadMapCount(tag);
        count := 2 * count;
      } else if tag < 0xa0 {
        ok, count := true, tag % 16;
      } else {
        ok, count := ReadUnsigned(if tag == 0xdc then 2 else 4);
      }
      assert HeadAt(F(), payload, old(data), tag) == if ok then Into(data, count) else Bad;
      if ok {
        ok := SkipValues(count, depth);
      }
    }

    /** Reads the key of an entry; what is left may still be too short for a value. */
    method ReadKey() returns (ok: bool, key: Bytes)
      requires Valid()
      modifies this
      ensures Valid()
      ensures KeyAt(F(), payload, old(data)) == if ok && remaining > 0 then Some((key, data)) else None
      ensures remaining <= old(remaining)
    {
      var keyTag;
      ok, keyTag := ReadByte();
      if !ok {
        return false, [];
      }
      ok, key := ReadStringView(keyTag);
    }

    /** Reads a key and its value and writes the value to the row if a requested path goes through the key. */
    method DecodeEntry(depth: nat, row: array<Cell>, columns: seq<nat>, paths: seq<Path>, ghost d: Decoded)
      returns (ok: bool)
      requires Valid() && InRange(columns, paths, row[..])
      requires d == EntryAt(F(), payload, data, depth, paths, columns, row[..])
      modifies this, row
      ensures Valid() && ok == d.ok && row[..] == d.row && (ok ==> data == d.end)
      decreases remaining, 0
    {
      ghost var keyHere, row0 := KeyAt(F(), payload, data), row[..];
      EntryIsValue(F(), payload, data, depth, paths, columns, row0, keyHere);
      var key, valueTag;
      ok, key := ReadKey();
      if !ok {
        return false;
      }
      var matched := MatchField(paths, depth, key);
      ok, valueTag := ReadByte();
      assert row[..] == row0;
      if !ok {
        return false;
      }
      ok := DecodeValue(valueTag, key, matched, depth, row, columns, paths, d);
    }

    method DecodeValue(tag: byte, ghost key: Bytes, matched: Option<nat>, depth: nat, row: array<Cell>,
                       columns: seq<nat>, paths: seq<Path>, ghost d: Decoded) returns (ok: bool)
      requires Valid() && InRange(columns, paths, row[..]) && matched == FirstMatch(paths, depth, key)
      requires d == ValueAt(F(), payload, data, tag, key, depth, paths, columns, row[..])
      modifies this, row
      ensures Valid() && ok == d.ok && row[..] == d.row && (ok ==> data == d.end)
      decreases remaining, 4
    {
      if matched.None? {
        ok := SkipValueAfterTag(tag, 0);
      } else if depth + 1 == |paths[matched.value]| {
        ok := ReadScalarToVector(tag, row, columns[matched.value]);
        if !ok {
          ok := SkipValueAfterTag(tag, 0);
        }
      } else if 0x80 <= tag < 0x90 || tag == 0xde || tag == 0xdf {
        ok := DecodeMap(tag, depth + 1, row, columns, paths);
      } else {
        ok := SkipValueAfterTag(tag, 0);
      }
    }

    method DecodeMap(tag: byte, depth: nat, row: array<Cell>, columns: seq<nat>, paths: seq<Path>) returns (ok: bool)
      requires Valid() && InRange(columns, paths, row[..])
      modifies this, row
      ensures Valid()
      ensures var d := MapAt(F(), payload, old(data), tag, depth, paths, columns, old(row[..]));
              ok == d.ok && row[..] == d.row && (ok ==> data == d.end)
      decreases remaining, 3
    {
      if !(0x80 <= tag < 0x90 || tag == 0xde || tag == 0xdf) {
        return false;
      }
      var count;
      ok, count := ReadMapCount(tag);
      if !ok {
        return false;
      }
      ok := DecodeEntries(count, depth, row, columns, paths,
                          EntriesAt(F(), payload, data, count, depth, paths, columns, row[..]));
    }

    /** The first of the `left` entries that are still to be read. */
    method DecodeNextEntry(ghost left: nat, depth: nat, row: array<Cell>, columns: seq<nat>, paths: seq<Path>,
                           ghost d: Decoded)
      returns (ok: bool)
      requires Valid() && InRange(columns, paths, row[..]) && left > 0
      requires d == EntriesAt(F(), payload, data, left, depth, paths, columns, row[..])
      modifies this, row
      ensures Valid() && (ok ==> remaining <= old(remaining))
      ensures ok ==> d == EntriesAt(F(), payload, data, left - 1, depth, paths, columns, row[..])
      ensures !ok ==> !d.ok && row[..] == d.row
      decreases remaining, 1
    {
      ghost var data0, row0 := data, row[..];
      ghost var entry := EntryAt(F(), payload, data0, depth, paths, columns, row0);
      ok := DecodeEntry(depth, row, columns, paths, entry);
      AfterEntry(F(), payload, data0, left, depth, paths, columns, row0, d, entry, data, row[..]);
    }

    method DecodeEntries(count: nat, depth: nat, row: array<Cell>, columns: seq<nat>, paths: seq<Path>,
                         ghost d: Decoded)
      returns (ok: bool)
      requires Valid() && InRange(columns, paths, row[..])
      requires d == EntriesAt(F(), payload, data, count, depth, paths, columns, row[..])
      modifies this, row
      ensures Valid() && ok == d.ok && row[..] == d.row && (ok ==> data == d.end)
      decreases remaining, 2
    {
      ghost var left := count;
      for i := 0 to count
        invariant Valid() && remaining <= old(remaining) && left == count - i
        invariant d == EntriesAt(F(), payload, data, left, depth, paths, columns, row[..])
      {
        ok := DecodeNextEntry(left, depth, row, columns, paths, d);
        if !ok {
          return false;
        }
        left := left - 1;
      }
      ok := true;
    }

    method Decode(row: array<Cell>, columns: seq<nat>, paths: seq<Path>) returns (ok: bool)
      requires Valid() && data == 0 && InRange(columns, paths, row[..])
      modifies this, row
      ensures Valid()
      ensures row[..] == if payload == [] then old(row[..])
                         else MapAt(F(), payload, 1, payload[0], 0, paths, columns, old(row[..])).row
    {
      var tag;
      ok, tag := ReadByte();
      if ok {
        ok := DecodeMap(tag, 0, row, columns, paths);
      }
    }
  }

  /** Extracts the fields of one payload into the output columns of a row; what cannot be read stays null. */
  method DecodeMsgpackFieldPathsToChunk(row: array<Cell>, columns: seq<nat>, payload: Bytes, paths: seq<Path>,
                                        floatText: FloatText)
    requires InRange(columns, paths, row[..])
    modifies row
    ensures row[..] == DecodeRow(Msgpack(floatText), payload, paths, columns, old(row[..]))
  {
    ClearColumns(row, columns);
    var reader := new MsgpackReader(payload, floatText);
    var _ := reader.Decode(row, columns, paths);
  }
}
