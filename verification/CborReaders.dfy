/** The CBOR reader of src/nats_message_decode.cpp: a cursor over the payload that skips values and extracts requested
    paths into a row. */
module CborReaders {
  import opened Options
  import opened Bytes
  import opened Projection
  import opened Wire
  import opened Formats
  import opened Extraction

  class CborReader {
    const payload: Bytes
    const floatText: FloatText
    var data: nat
    var remaining: nat

    /** A payload in memory is shorter than 2^63 bytes. */
    predicate Valid()
      reads this
    {
      data + remaining == |payload| < TWO63
    }

    function F(): Format {
      Cbor(floatText)
    }

    constructor (payload: Bytes, floatText: FloatText)
      requires |payload| < TWO63
      ensures Valid() && this.payload == payload && this.floatText == floatText && data == 0
    {
      this.payload, this.floatText, data, remaining := payload, floatText, 0, |payload|;
    }

    method ReadByte() returns (ok: bool, value: byte)
      requires Valid()
      modifies this
      ensures Valid() && ok == (old(remaining) > 0)
      ensures if ok then data == old(data) + 1 && value == payload[old(data)] else data == old(data)
    {
      if remaining == 0 {
        return false, 0;
      }
      value := payload[data];
      data, remaining := data + 1, remaining - 1;
      ok := true;
    }

    method ReadUnsigned(width: nat) returns (ok: bool, value: nat)
      requires Valid()
      modifies this
      ensures Valid() && ok == (width <= old(remaining) && width <= 8)
      ensures if ok then data == old(data) + width && value == FromBigEndian(payload[old(data)..data]) && value < TWO64
              else data == old(data)
    {
      value := 0;
      if width > remaining || width > 8 {
        return false, 0;
      }
      for i := 0 to width
        invariant data == old(data) + i && remaining == old(remaining) && data <= |payload|
        invariant value == FromBigEndian(payload[old(data)..data])
      {
        assert payload[old(data)..data + 1][..i] == payload[old(data)..data];
        value := value * 256 + payload[data];
        data := data + 1;
      }
      remaining := remaining - width;
      Fits(payload[old(data)..data]);
      ok := true;
    }

    /** The argument that the low bits of a tag announce. */
    method ReadArgument(additional: byte) returns (ok: bool, value: nat)
      requires Valid() && additional < 32
      modifies this
      ensures Valid() && ok == (additional < 28 && CborWidth(additional) <= old(remaining))
      ensures if ok then data == old(data) + CborWidth(additional) && value < TWO64
                         && value == if additional < 24 then additional else FromBigEndian(payload[old(data)..data])
              else data == old(data)
    {
      if additional < 24 {
        return true, additional;
      }
      if additional == 24 {
        ok, value := ReadUnsigned(1);
      } else if additional == 25 {
        ok, value := ReadUnsigned(2);
      } else if additional == 26 {
        ok, value := ReadUnsigned(4);
      } else if additional == 27 {
        ok, value := ReadUnsigned(8);
      } else {
        return false, 0;
      }
    }

    /** The text whose tag has been read. */
    method ReadText(ghost tag: byte, additional: byte) returns (ok: bool, value: Bytes)
      requires Valid() && tag / 32 == 3 && additional == tag % 32
      modifies this
      ensures Valid()
      ensures var text := TextAt(F(), payload, old(data), tag);
              data == text.end && ok == text.Read? && (ok ==> text.cell == Text(value))
      ensures !ok ==> data == old(data) + if additional == 24 && old(remaining) >= 1 then 1
                                          else if additional == 25 && old(remaining) >= 2 then 2
                                          else if additional == 26 && old(remaining) >= 4 then 4
                                          else if additional == 27 && old(remaining) >= 8 then 8
                                          else 0
    {
      var length;
      ok, length := ReadArgument(additional);
      if !ok || length > remaining {
        return false, [];
      }
      value := payload[data..data + length];
      data, remaining := data + length, remaining - length;
    }

    /** Writes the scalar whose tag has been read to a cell of the row. */
    method SetScalar(ghost tag: byte, major: byte, additional: byte, row: array<Cell>, column: nat) returns (ok: bool)
      requires Valid() && column < row.Length && major == tag / 32 && additional == tag % 32
      modifies this, row
      ensures Valid()
      ensures var scalar := ScalarAt(F(), payload, old(data), tag);
              && data == scalar.end && ok == scalar.Read?
              && row[..] == if ok then old(row[..])[column := scalar.cell] else old(row[..])
    {
      var buffer: Bytes := [];
      if major == 0 || major == 1 {
        ok, buffer := ReadInteger(tag, major, additional);
      } else if major == 3 {
        ok, buffer := ReadText(tag, additional);
      } else if major == 7 && (additional == 20 || additional == 21) {
        ok, buffer := true, if additional == 21 then TRUE_TEXT else FALSE_TEXT;
      } else if major == 7 && additional == 22 {
        row[column] := Null;
        return true;
      } else if major == 7 && (additional == 25 || additional == 26 || additional == 27) {
        ok, buffer := ReadFloat(tag, additional);
      } else {
        ok := false;
      }
      if ok {
        row[column] := Text(buffer);
      }
    }

    lemma IntegerScalar(i: nat, tag: byte, ok: bool, value: nat)
      requires i <= |payload| && tag / 32 <= 1 && (ok ==> value < TWO64)
      requires ok == (tag % 32 < 28 && CborWidth(tag % 32) <= |payload| - i)
      requires ok ==> value == if tag % 32 < 24 then tag % 32 else FromBigEndian(payload[i..i + CborWidth(tag % 32)])
      ensures var number := if tag / 32 == 0 then value else AsSigned((TWO64 - 1 - value) % TWO64, TWO63);
              ScalarAt(F(), payload, i, tag)
              == if ok then Read(Text(Decimal(number)), i + CborWidth(tag % 32)) else NotRead(i)
    {
    }

    /** The text of an integer; a negative one is computed in 64 bits. */
    method ReadInteger(ghost tag: byte, major: byte, additional: byte) returns (ok: bool, buffer: Bytes)
      requires Valid() && major == tag / 32 && additional == tag % 32 && major <= 1
      modifies this
      ensures Valid()
      ensures var scalar := ScalarAt(F(), payload, old(data), tag);
              data == scalar.end && ok == scalar.Read? && (ok ==> scalar.cell == Text(buffer))
    {
      var value;
      ok, value := ReadArgument(additional);
      IntegerScalar(old(data), tag, ok, value);
      buffer := if major == 0 then Decimal(value) else Decimal(AsSigned((TWO64 - 1 - value) % TWO64, TWO63));
    }

    /** The text of a float; a half float reads as zero. */
    method ReadFloat(ghost tag: byte, additional: byte) returns (ok: bool, buffer: Bytes)
      requires Valid() && tag / 32 == 7 && additional == tag % 32 && 25 <= additional <= 27
      modifies this
      ensures Valid()
      ensures var scalar := ScalarAt(F(), payload, old(data), tag);
              data == scalar.end && ok == scalar.Read? && (ok ==> scalar.cell == Text(buffer))
    {
      var bits;
      ok, bits := ReadUnsigned(if additional == 25 then 2 else if additional == 26 then 4 else 8);
      buffer := floatText(Double, 0);
      if additional == 26 {
        buffer := floatText(Widened, bits);
      } else if additional == 27 {
        buffer := floatText(Double, bits);
      }
    }

    method Advance(bytes: nat) returns (ok: bool)
      requires Valid()
      modifies this
      ensures Valid() && ok == (bytes <= old(remaining)) && data == if ok then old(data) + bytes else old(data)
    {
      ok := bytes <= remaining;
      if ok {
        data, remaining := data + bytes, remaining - bytes;
      }
    }

    method SkipChild(depth: nat) returns (ok: bool)
      requires Valid()
      modifies this
      ensures Valid() && data >= old(data)
      ensures var end := SkipItems(F(), payload, old(data), 1, depth); ok == end.Some? && (ok ==> data == end.value)
      decreases remaining, 0
    {
      var child;
      ok, child := ReadByte();
      if ok {
        ok := Skip(child, depth);
      }
    }

    method SkipValues(elements: nat, depth: nat) returns (ok: bool)
      requires Valid()
      modifies this
      ensures Valid() && data >= old(data)
      ensures var end := SkipItems(F(), payload, old(data), elements, depth);
              ok == end.Some? && (ok ==> data == end.value)
      decreases remaining, 1
    {
      ghost var end := SkipItems(F(), payload, data, elements, depth);
      for i := 0 to elements
        invariant Valid() && data >= old(data)
        invariant end == SkipItems(F(), payload, data, elements - i, depth)
      {
        SkipOne(F(), payload, data, elements - i, depth);
        ok := SkipChild(depth);
        if !ok {
          return false;
        }
      }
      ok := true;
    }

    /** The head of an array or map, when its argument is as read. */
    lemma ElementsHead(i: nat, tag: byte, ok: bool, count: nat)
      requires i <= |payload| && (tag / 32 == 4 || tag / 32 == 5)
      requires ok == (tag % 32 < 28 && CborWidth(tag % 32) <= |payload| - i)
      requires ok ==> count == if tag % 32 < 24 then tag % 32 else FromBigEndian(payload[i..i + CborWidth(tag % 32)])
      ensures HeadAt(F(), payload, i, tag)
              == if ok then Into(i + CborWidth(tag % 32), Children(tag / 32 == 5, count)) else Bad
    {
    }

    /** Where the elements of an array or map end; None when they cannot be skipped. */
    ghost function EndOfElements(i: nat, tag: byte, depth: nat): Option<nat>
      requires i <= |payload|
    {
      var head := HeadAt(F(), payload, i, tag);
      if head.Into? then SkipItems(F(), payload, head.start, head.count, depth) else None
    }

    /** Skipping the elements, or failing where there are more than bytes. */
    lemma ElementsEnd(i: nat, tag: byte, ok: bool, count: nat, depth: nat, end: Option<nat>)
      requires i <= |payload| && (tag / 32 == 4 || tag / 32 == 5)
      requires ok == (tag % 32 < 28 && CborWidth(tag % 32) <= |payload| - i)
      requires ok ==> count == if tag % 32 < 24 then tag % 32 else FromBigEndian(payload[i..i + CborWidth(tag % 32)])
      requires end == EndOfElements(i, tag, depth)
      ensures end == if ok && count <= |payload| - i - CborWidth(tag % 32) then
                       SkipItems(F(), payload, i + CborWidth(tag % 32), Children(tag / 32 == 5, count), depth)
                     else
                       None
    {
      ElementsHead(i, tag, ok, count);
      if ok {
        TooMany(i + CborWidth(tag % 32), Children(tag / 32 == 5, count), depth);
      }
    }

    lemma TooMany(i: nat, count: nat, depth: nat)
      requires i <= |payload|
      ensures count > |payload| - i ==> SkipItems(F(), payload, i, count, depth) == None
    {
    }

    /** The elements of an array or map, after the tag.  No well-formed one has more elements than bytes remain, so
        turning down a larger count changes nothing, and it keeps twice the count below 2^64. */
    method SkipElements(ghost tag: byte, major: byte, additional: byte, depth: nat) returns (ok: bool)
      requires Valid() && major == tag / 32 && additional == tag % 32 && (major == 4 || major == 5)
      modifies this
      ensures Valid() && data >= old(data)
      ensures var end := EndOfElements(old(data), tag, depth); ok == end.Some? && (ok ==> data == end.value)
      decreases remaining, 2
    {
      ghost var data0 := data;
      var count;
      ok, count := ReadArgument(additional);
      ghost var end := EndOfElements(data0, tag, depth);
      ElementsEnd(data0, tag, ok, count, depth, end);
      if !ok || count > remaining {
        return false;
      }
      assert count * 2 < TWO64;
      var elements := if major == 5 then count * 2 else count;
      assert end == SkipItems(F(), payload, data, elements, depth);
      ok := SkipValues(elements, depth);
    }

    method Skip(tag: byte, depth: nat) returns (ok: bool)
      requires Valid()
      modifies this
      ensures Valid() && data >= old(data)
      ensures var end := SkipAt(F(), payload, old(data), tag, depth); ok == end.Some? && (ok ==> data == end.value)
      decreases remaining, 3
    {
      if depth > MAX_DECODE_DEPTH {
        return false;
      }
      var major, additional := tag / 32, tag % 32;
      if major == 4 || major == 5 {
        ok := SkipElements(tag, major, additional, depth + 1);
      } else if major == 6 {
        var tagNumber;
        ok, tagNumber := ReadArgument(additional);
        assert HeadAt(F(), payload, old(data), tag) == if ok then Into(data, 1) else Bad;
        if ok {
          ok := SkipChild(depth + 1);
        }
      } else {
        ok := SkipSized(tag, major, additional);
      }
    }

    /** The bytes after the tag of an integer, a string, a simple value or a float. */
    method SkipSized(ghost tag: byte, major: byte, additional: byte) returns (ok: bool)
      requires Valid() && major == tag / 32 && additional == tag % 32 && (major <= 3 || major == 7)
      modifies this
      ensures Valid() && data >= old(data)
      ensures HeadAt(F(), payload, old(data), tag) == if ok then Jump(data) else Bad
    {
      var count;
      if major <= 1 {
        ok, count := ReadArgument(additional);
      } else if major <= 3 {
        ok, count := ReadArgument(additional);
        if ok {
          ok := Advance(count);
        }
      } else if additional < 24 {
        ok := true;
      } else if additional < 28 {
        ok, count := ReadUnsigned(if additional == 24 then 1 else if additional == 25 then 2
                                  else if additional == 26 then 4 else 8);
      } else {
        ok := false;
      }
    }

    /** Reads the key of an entry; what is left may still be too short for a value. */
    method ReadKey() returns (ok: bool, key: Bytes)
      requires Valid()
      modifies this
      ensures Valid()
      ensures KeyAt(F(), payload, old(data)) == if ok && remaining > 0 then Some((key, data)) else None
      ensures remaining <= old(remaining)
    {
      var keyTag;
      ok, keyTag := ReadByte();
      if !ok || keyTag / 32 != 3 {
        return false, [];
      }
      ok, key := ReadText(keyTag, keyTag % 32);
    }

    /** Reads a key and its value and writes the value to the row if a requested path goes through the key. */
    method DecodeEntry(depth: nat, row: array<Cell>, columns: seq<nat>, paths: seq<Path>, ghost d: Decoded)
      returns (ok: bool)
      requires Valid() && InRange(columns, paths, row[..])
      requires d == EntryAt(F(), payload, data, depth, paths, columns, row[..])
      modifies this, row
      ensures Valid() && ok == d.ok && row[..] == d.row && (ok ==> data == d.end)
      decreases remaining, 0
    {
      ghost var keyHere, row0 := KeyAt(F(), payload, data), row[..];
      EntryIsValue(F(), payload, data, depth, paths, columns, row0, keyHere);
      var key, valueTag;
      ok, key := ReadKey();
      if !ok {
        return false;
      }
      var matched := MatchField(paths, depth, key);
      ok, valueTag := ReadByte();
      assert row[..] == row0;
      if !ok {
        return false;
      }
      ok := DecodeValue(valueTag, key, matched, depth, row, columns, paths, d);
    }

    method DecodeValue(tag: byte, ghost key: Bytes, matched: Option<nat>, depth: nat, row: array<Cell>,
                       columns: seq<nat>, paths: seq<Path>, ghost d: Decoded) returns (ok: bool)
      requires Valid() && InRange(columns, paths, row[..]) && matched == FirstMatch(paths, depth, key)
      requires d == ValueAt(F(), payload, data, tag, key, depth, paths, columns, row[..])
      modifies this, row
      ensures Valid() && ok == d.ok && row[..] == d.row && (ok ==> data == d.end)
      decreases remaining, 4
    {
      if matched.None? {
        ok := Skip(tag, 0);
      } else if depth + 1 == |paths[matched.value]| {
        ok := SetScalar(tag, tag / 32, tag % 32, row, columns[matched.value]);
        if !ok {
          ok := Skip(tag, 0);
        }
      } else if tag / 32 == 5 {
        ok := DecodeMap(tag, depth + 1, row, columns, paths);
      } else {
        ok := Skip(tag, 0);
      }
    }

    method DecodeMap(tag: byte, depth: nat, row: array<Cell>, columns: seq<nat>, paths: seq<Path>) returns (ok: bool)
      requires Valid() && InRange(columns, paths, row[..])
      modifies this, row
      ensures Valid()
      ensures var d := MapAt(F(), payload, old(data), tag, depth, paths, columns, old(row[..]));
              ok == d.ok && row[..] == d.row && (ok ==> data == d.end)
      decreases remaining, 3
    {
      if tag / 32 != 5 {
        return false;
      }
      var count;
      ok, count := ReadArgument(tag % 32);
      if !ok {
        return false;
      }
      ok := DecodeEntries(count, depth, row, columns, paths,
                          EntriesAt(F(), payload, data, count, depth, paths, columns, row[..]));
    }

    /** The first of the `left` entries that are still to be read. */
    method DecodeNextEntry(ghost left: nat, depth: nat, row: array<Cell>, columns: seq<nat>, paths: seq<Path>,
                           ghost d: Decoded)
      returns (ok: bool)
      requires Valid() && InRange(columns, paths, row[..]) && left > 0
      requires d == EntriesAt(F(), payload, data, left, depth, paths, columns, row[..])
      modifies this, row
      ensures Valid() && (ok ==> remaining <= old(remaining))
      ensures ok ==> d == EntriesAt(F(), payload, data, left - 1, depth, paths, columns, row[..])
      ensures !ok ==> !d.ok && row[..] == d.row
      decreases remaining, 1
    {
      ghost var data0, row0 := data, row[..];
      ghost var entry := EntryAt(F(), payload, data0, depth, paths, columns, row0);
      ok := DecodeEntry(depth, row, columns, paths, entry);
      AfterEntry(F(), payload, data0, left, depth, paths, columns, row0, d, entry, data, row[..]);
    }

    method DecodeEntries(count: nat, depth: nat, row: array<Cell>, columns: seq<nat>, paths: seq<Path>,
                         ghost d: Decoded)
      returns (ok: bool)
      requires Valid() && InRange(columns, paths, row[..])
      requires d == EntriesAt(F(), payload, data, count, depth, paths, columns, row[..])
      modifies this, row
      ensures Valid() && ok == d.ok && row[..] == d.row && (ok ==> data == d.end)
      decreases remaining, 2
    {
      ghost var left := count;
      for i := 0 to count
        invariant Valid() && remaining <= old(remaining) && left == count - i
        invariant d == EntriesAt(F(), payload, data, left, depth, paths, columns, row[..])
      {
        ok := DecodeNextEntry(left, depth, row, columns, paths, d);
        if !ok {
          return false;
        }
        left := left - 1;
      }
      ok := true;
    }

    method Decode(row: array<Cell>, columns: seq<nat>, paths: seq<Path>) returns (ok: bool)
      requires Valid() && data == 0 && InRange(columns, paths, row[..])
      modifies this, row
      ensures Valid()
      ensures row[..] == if payload == [] then old(row[..])
                         else MapAt(F(), payload, 1, payload[0], 0, paths, columns, old(row[..])).row
    {
      var tag;
      ok, tag := ReadByte();
      if ok {
        ok := DecodeMap(tag, 0, row, columns, paths);
      }
    }
  }

  /** Extracts the fields of one payload into the output columns of a row; what cannot be read stays null. */
  method DecodeCborFieldPathsToChunk(row: array<Cell>, columns: seq<nat>, payload: Bytes, paths: seq<Path>,
                                        floatText: FloatText)
    requires InRange(columns, paths, row[..]) && |payload| < TWO63
    modifies row
    ensures row[..] == DecodeRow(Cbor(floatText), payload, paths, columns, old(row[..]))
  {
    ClearColumns(row, columns);
    var reader := new CborReader(payload, floatText);
    var _ := reader.Decode(row, columns, paths);
  }
}
