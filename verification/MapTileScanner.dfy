/**
 The scanner that finds layer names in a vector tile: base-128 varints and length-delimited fields
 (Protocol Buffers encoding), read through a shared cursor. `Got` and `Failed` both carry the
 position at which a reader leaves the cursor.
 */
module MapTileScanner {

  type Byte = b: int | 0 <= b < 256

  const WORD := 0x1_0000_0000_0000_0000

  datatype Read<+T> = Got(value: T, pos: nat) | Failed(pos: nat)

  function Pow2(n: nat): (p: nat)
    ensures p >= 1
  {
    if n == 0 then 1 else 2 * Pow2(n - 1)
  }

  /** Bitwise OR. */
  function Or(a: nat, b: nat): nat
    decreases a + b
  {
    if a == 0 && b == 0 then 0
    else (if a % 2 == 1 || b % 2 == 1 then 1 else 0) + 2 * Or(a / 2, b / 2)
  }

  /** Or-s in the low seven bits of a byte, shifted left within 64 bits. */
  function OrShifted(value: nat, b: Byte, shift: nat): nat {
    Or(value, b % 128 * Pow2(shift) % WORD)
  }

  function VarintFrom(data: seq<Byte>, pos: nat, shift: nat, value: nat): (r: Read<nat>)
    ensures pos <= r.pos && (pos <= |data| ==> r.pos <= |data|)
    ensures r.Got? ==> pos < r.pos <= |data|
    ensures shift % 7 == 0 ==> r.pos <= pos + if shift <= 63 then 10 - shift / 7 else 0
    decreases 70 - shift
  {
    if shift >= 64 || pos >= |data| then Failed(pos)
    else
      var next := OrShifted(value, data[pos], shift);
      if data[pos] < 128 then Got(next, pos + 1) else VarintFrom(data, pos + 1, shift + 7, next)
  }

  function VarintAt(data: seq<Byte>, pos: nat): Read<nat> {
    VarintFrom(data, pos, 0, 0)
  }

  function BytesAt(data: seq<Byte>, pos: nat): (r: Read<seq<Byte>>)
    requires pos <= |data|
    ensures r.Got? ==> pos < r.pos <= |data|
  {
    var length := VarintAt(data, pos);
    if length.Failed? || length.value > |data| - length.pos then Failed(length.pos)
    else Got(data[length.pos..length.pos + length.value], length.pos + length.value)
  }

  function SkipAt(data: seq<Byte>, pos: nat, wire: nat): (r: Read<()>)
    requires pos <= |data|
    ensures r.Got? ==> pos < r.pos <= |data|
  {
    match wire
    case 0 => var v := VarintAt(data, pos); if v.Got? then Got((), v.pos) else Failed(v.pos)
    case 1 => if pos + 8 <= |data| then Got((), pos + 8) else Failed(pos + 8)
    case 2 => var v := BytesAt(data, pos); if v.Got? then Got((), v.pos) else Failed(v.pos)
    case 5 => if pos + 4 <= |data| then Got((), pos + 4) else Failed(pos + 4)
    case _ => Failed(pos)
  }

  /** A field's number and wire type, and the contents of a length-delimited one. */
  datatype RawField = RawField(no: nat, wire: nat, bytes: seq<Byte>)

  function FieldAt(data: seq<Byte>, pos: nat): (r: Read<RawField>)
    ensures r.Got? ==> pos < r.pos <= |data|
  {
    var key := VarintAt(data, pos);
    if key.Failed? then Failed(key.pos)
    else
      var no, wire := key.value / 8, key.value % 8;
      if wire == 2 then
        var bytes := BytesAt(data, key.pos);
        if bytes.Got? then Got(RawField(no, wire, bytes.value), bytes.pos) else Failed(bytes.pos)
      else
        var rest := SkipAt(data, key.pos, wire);
        if rest.Got? then Got(RawField(no, wire, []), rest.pos) else Failed(rest.pos)
  }

  /** The first name field's text, or nothing. */
  function LayerNameAt(data: seq<Byte>, pos: nat): seq<Byte>
    decreases |data| - pos
  {
    if pos >= |data| then []
    else
      var f := FieldAt(data, pos);
      if f.Failed? then []
      else if f.value.no == 1 && f.value.wire == 2 then f.value.bytes
      else LayerNameAt(data, f.pos)
  }

  function AddName(names: seq<seq<Byte>>, name: seq<Byte>): seq<seq<Byte>> {
    if name == [] || name in names then names else names + [name]
  }

  function AddField(names: seq<seq<Byte>>, f: RawField): seq<seq<Byte>> {
    if f.no == 3 && f.wire == 2 then AddName(names, LayerNameAt(f.bytes, 0)) else names
  }

  function NamesFrom(data: seq<Byte>, pos: nat, names: seq<seq<Byte>>): seq<seq<Byte>>
    decreases |data| - pos
  {
    if pos >= |data| then names
    else
      var f := FieldAt(data, pos);
      if f.Failed? then names else NamesFrom(data, f.pos, AddField(names, f.value))
  }

  // ---- The readers ----

  class Cursor {
    var pos: nat

    constructor ()
      ensures pos == 0
    {
      pos := 0;
    }
  }

  method ReadVarint(data: seq<Byte>, cursor: Cursor) returns (value: nat, ok: bool)
    modifies cursor
    ensures old(cursor.pos) <= cursor.pos <= old(cursor.pos) + 10
    ensures old(cursor.pos) <= |data| ==> cursor.pos <= |data|
    ensures var r := VarintAt(data, old(cursor.pos));
      cursor.pos == r.pos && ok == r.Got? && value == if r.Got? then r.value else 0
  {
    value := 0;
    var shift := 0;
    while shift < 64
      invariant VarintFrom(data, cursor.pos, shift, value) == VarintAt(data, old(cursor.pos))
    {
      if cursor.pos >= |data| {
        return 0, false;
      }
      var b := data[cursor.pos];
      cursor.pos := cursor.pos + 1;
      value := OrShifted(value, b, shift);
      if b < 128 {
        return value, true;
      }
      shift := shift + 7;
    }
    return 0, false;
  }

  method ReadBytes(data: seq<Byte>, cursor: Cursor) returns (bytes: seq<Byte>, ok: bool)
    requires cursor.pos <= |data|
    modifies cursor
    ensures var r := BytesAt(data, old(cursor.pos));
      cursor.pos == r.pos && ok == r.Got? && bytes == if r.Got? then r.value else []
  {
    var length, read := ReadVarint(data, cursor);
    if !read || length > |data| - cursor.pos {
      return [], false;
    }
    var start := cursor.pos;
    cursor.pos := cursor.pos + length;
    return data[start..cursor.pos], true;
  }

  method SkipField(data: seq<Byte>, cursor: Cursor, wire: nat) returns (ok: bool)
    requires cursor.pos <= |data|
    modifies cursor
    ensures var r := SkipAt(data, old(cursor.pos), wire); cursor.pos == r.pos && ok == r.Got?
  {
    match wire {
      case 0 =>
        var value;
        value, ok := ReadVarint(data, cursor);
        return;
      case 1 => cursor.pos := cursor.pos + 8;
      case 2 =>
        var bytes;
        bytes, ok := ReadBytes(data, cursor);
        return;
      case 5 => cursor.pos := cursor.pos + 4;
      case _ => return false;
    }
    ok := cursor.pos <= |data|;
  }

  method LayerName(data: seq<Byte>) returns (name: seq<Byte>)
    ensures name == LayerNameAt(data, 0)
  {
    var cursor := new Cursor();
    while cursor.pos < |data|
      invariant LayerNameAt(data, cursor.pos) == LayerNameAt(data, 0)
      decreases |data| - cursor.pos
    {
      var key, ok := ReadVarint(data, cursor);
      if !ok {
        return [];
      }
      if key / 8 == 1 && key % 8 == 2 {
        var text, read := ReadBytes(data, cursor);
        return text;
      }
      ok := SkipField(data, cursor, key % 8);
      if !ok {
        return [];
      }
    }
    return [];
  }

  method LayerNames(data: seq<Byte>) returns (names: seq<seq<Byte>>)
    ensures names == NamesFrom(data, 0, [])
  {
    names := [];
    var seen: set<seq<Byte>> := {};
    var cursor := new Cursor();
    while cursor.pos < |data|
      invariant forall n :: n in seen <==> n in names
      invariant NamesFrom(data, cursor.pos, names) == NamesFrom(data, 0, [])
      decreases |data| - cursor.pos
    {
      var key, ok := ReadVarint(data, cursor);
      if !ok {
        return;
      }
      if key / 8 == 3 && key % 8 == 2 {
        var layer, read := ReadBytes(data, cursor);
        if !read {
          return;
        }
        var name := LayerName(layer);
        if name != [] && name !in seen {
          seen := seen + {name};
          names := names + [name];
        }
      } else {
        ok := SkipField(data, cursor, key % 8);
        if !ok {
          return;
        }
      }
    }
  }

  // ---- Truncation ----

  lemma {:induction false} VarintOfPrefix(data: seq<Byte>, n: nat, pos: nat, shift: nat, value: nat)
    requires n <= |data| && VarintFrom(data[..n], pos, shift, value).Got?
    ensures VarintFrom(data, pos, shift, value) == VarintFrom(data[..n], pos, shift, value)
    decreases 70 - shift
  {
    if data[pos] >= 128 {
      VarintOfPrefix(data, n, pos + 1, shift + 7, OrShifted(value, data[pos], shift));
    }
  }

  lemma BytesOfPrefix(data: seq<Byte>, n: nat, pos: nat)
    requires pos <= n <= |data| && BytesAt(data[..n], pos).Got?
    ensures BytesAt(data, pos) == BytesAt(data[..n], pos)
  {
    VarintOfPrefix(data, n, pos, 0, 0);
    var length := VarintAt(data, pos);
    assert data[..n][length.pos..length.pos + length.value] == data[length.pos..length.pos + length.value];
  }

  lemma SkipOfPrefix(data: seq<Byte>, n: nat, pos: nat, wire: nat)
    requires pos <= n <= |data| && SkipAt(data[..n], pos, wire).Got?
    ensures SkipAt(data, pos, wire) == SkipAt(data[..n], pos, wire)
  {
    if wire == 0 {
      VarintOfPrefix(data, n, pos, 0, 0);
    } else if wire == 2 {
      BytesOfPrefix(data, n, pos);
    }
  }

  lemma FieldOfPrefix(data: seq<Byte>, n: nat, pos: nat)
    requires n <= |data| && FieldAt(data[..n], pos).Got?
    ensures FieldAt(data, pos) == FieldAt(data[..n], pos)
  {
    VarintOfPrefix(data, n, pos, 0, 0);
    var key := VarintAt(data, pos);
    if key.value % 8 == 2 {
      BytesOfPrefix(data, n, key.pos);
    } else {
      SkipOfPrefix(data, n, key.pos, key.value % 8);
    }
  }

  lemma {:induction false} NamesOnlyGrow(data: seq<Byte>, pos: nat, names: seq<seq<Byte>>)
    ensures names <= NamesFrom(data, pos, names)
    decreases |data| - pos
  {
    if pos < |data| && FieldAt(data, pos).Got? {
      var f := FieldAt(data, pos);
      NamesOnlyGrow(data, f.pos, AddField(names, f.value));
    }
  }

  /** What is found in a truncated tile is a prefix of what is found in the whole one. */
  lemma {:induction false} TruncationKeepsAPrefix(data: seq<Byte>, n: nat, pos: nat, names: seq<seq<Byte>>)
    requires n <= |data|
    ensures NamesFrom(data[..n], pos, names) <= NamesFrom(data, pos, names)
    decreases |data| - pos
  {
    NamesOnlyGrow(data, pos, names);
    if pos < n && FieldAt(data[..n], pos).Got? {
      FieldOfPrefix(data, n, pos);
      var f := FieldAt(data, pos);
      TruncationKeepsAPrefix(data, n, f.pos, AddField(names, f.value));
    }
  }
}
