/** The metadata record table of a recorded-TV (WTV) container and the original-air-date
    resolver built on it. The container is an in-memory byte sequence. */
module Wtv {
  import opened Wrappers
  import opened Bytes
  import opened Utf16
  import opened Strings

  /** Byte offset of the record table inside the container. */
  const TableOffset: nat := 0x12000

  /** The 16 bytes that open every record; the table ends where they are missing. */
  const Magic: seq<byte> := [0x5A, 0xFE, 0xD7, 0x6D, 0xC8, 0x1D, 0x8F, 0x4A,
                             0x99, 0x22, 0xFA, 0xB1, 0x1C, 0x38, 0x14, 0x53]

  const BroadcastDateKey: string := "WM/MediaOriginalBroadcastDateTime"

  /** The broadcast date a recorder writes when it does not know the real one. */
  const UnsetBroadcastDate: string := "0001-01-01T00:00:00Z"

  /** A decoded value, as the Python types it becomes: `None`, `int`, `str`, `bool` or `bytes`.
      Type-6 payloads become hexadecimal `str`; type-2 and unknown types stay `bytes`. */
  datatype Value = Null | Int(i: int) | Text(s: string) | Bool(b: bool) | Blob(data: seq<byte>)

  type Metadata = map<string, Value>

  datatype DecodeError =
    | SeekOutOfRange     // the container is shorter than the table offset
    | TruncatedHeader    // fewer than eight bytes left for the type and length fields
    | TruncatedName      // the stream ends before the name's zero terminator
    | MalformedName      // the name is not well-formed UTF-16
    | MalformedText      // a type-1 value is not well-formed UTF-16
    | WrongIntegerWidth  // a type-0 or type-4 payload is not exactly 4 or 8 bytes

  /** The 16 bytes at `pos` are the record magic (a short read never matches). */
  predicate MagicAt(data: seq<byte>, pos: nat)
  {
    pos + 16 <= |data| && forall i :: 0 <= i < 16 ==> data[pos + i] == Magic[i]
  }

  /** The little-endian u32 at `pos` (`struct.unpack('<I', ...)`). */
  function U32At(data: seq<byte>, pos: nat): (x: nat)
    requires pos + 4 <= |data|
    ensures x < Pow256(4)
  {
    (data[pos] as int) + 256 * ((data[pos + 1] as int) + 256 * ((data[pos + 2] as int) + 256 * (data[pos + 3] as int)))
  }

  /** `U32At` is the unsigned little-endian value of the four bytes. */
  lemma {:induction false} U32AtUnsigned(data: seq<byte>, pos: nat)
    requires pos + 4 <= |data|
    ensures U32At(data, pos) == Unsigned(data[pos..pos + 4])
  {
    var b := data[pos..pos + 4];
    assert Unsigned(b[3..]) == data[pos + 3] by {
      assert b[3..][1..] == [];
    }
    assert Unsigned(b[2..]) == (data[pos + 2] as int) + 256 * (data[pos + 3] as int) by {
      assert b[2..][1..] == b[3..];
    }
    assert Unsigned(b[1..]) == data[pos + 1] + 256 * Unsigned(b[2..]) by {
      assert b[1..][1..] == b[2..];
    }
  }

  /** The little-endian 16-bit unit at `pos`. */
  function UnitAt(data: seq<byte>, pos: nat): CodeUnit
    requires pos + 2 <= |data|
  {
    (data[pos] as int) + 256 * (data[pos + 1] as int)
  }

  /** The `k`-th name unit after `pos`. */
  function NameUnit(data: seq<byte>, pos: nat, k: nat): CodeUnit
    requires pos + 2 * k + 2 <= |data|
  {
    UnitAt(data, pos + 2 * k)
  }

  /** No complete 16-bit unit from `pos` on is the zero terminator. */
  ghost predicate Unterminated(data: seq<byte>, pos: nat)
  {
    forall k: nat :: pos + 2 * k + 2 <= |data| ==> NameUnit(data, pos, k) != 0
  }

  /** Reads name units two bytes at a time up to the first zero unit. Returns the units
      (terminator excluded) and the position just after the terminator. */
  function ReadName(data: seq<byte>, pos: nat): (r: Result<(seq<CodeUnit>, nat), DecodeError>)
    ensures r.Success? ==> r.value.1 == pos + 2 * |r.value.0| + 2 <= |data|
    ensures r.Success? ==> forall k :: 0 <= k < |r.value.0| ==> r.value.0[k] == NameUnit(data, pos, k) != 0
    ensures r.Success? ==> NameUnit(data, pos, |r.value.0|) == 0
    ensures r.Failure? ==> r.error == TruncatedName
    decreases |data| - pos
  {
    if pos + 2 > |data| then Failure(TruncatedName)
    else if data[pos] == 0 && data[pos + 1] == 0 then Success(([], pos + 2))
    else
      var rest :- ReadName(data, pos + 2);
      assert forall k :: 1 <= k <= |rest.0| ==> NameUnit(data, pos, k) == NameUnit(data, pos + 2, k - 1);
      Success(([UnitAt(data, pos)] + rest.0, rest.1))
  }

  /** The name fails to read exactly when the stream ends before a zero unit. */
  lemma {:induction false} ReadNameFailsIffUnterminated(data: seq<byte>, pos: nat)
    ensures ReadName(data, pos).Failure? <==> Unterminated(data, pos)
    decreases |data| - pos
  {
    if pos + 2 > |data| {
    } else if data[pos] == 0 && data[pos + 1] == 0 {
      assert NameUnit(data, pos, 0) == 0;
    } else {
      ReadNameFailsIffUnterminated(data, pos + 2);
      assert NameUnit(data, pos, 0) != 0;
      if Unterminated(data, pos) {
        forall k: nat | pos + 2 + 2 * k + 2 <= |data|
          ensures NameUnit(data, pos + 2, k) != 0
        {
          assert NameUnit(data, pos + 2, k) == NameUnit(data, pos, k + 1);
        }
      } else {
        var k: nat :| pos + 2 * k + 2 <= |data| && NameUnit(data, pos, k) == 0;
        assert k > 0;
        assert NameUnit(data, pos + 2, k - 1) == 0;
      }
    }
  }

  /** One record as laid out in the stream, before its name and payload are interpreted. */
  datatype RawRecord = RawRecord(typeCode: nat, length: nat, name: seq<CodeUnit>, payload: seq<byte>, next: nat)

  function Min(a: int, b: int): int
  {
    if a <= b then a else b
  }

  /** Reads the record whose magic is at `pos`: type and length as little-endian u32, the name,
      then up to `length` payload bytes (none when `length` is zero). Like a file read, the payload
      read stops short at the end of the stream. */
  function ReadRecord(data: seq<byte>, pos: nat): (r: Result<RawRecord, DecodeError>)
    requires MagicAt(data, pos)
    ensures r.Success? ==> r.value.next == pos + 16 + 4 + 4 + (2 * |r.value.name| + 2) + |r.value.payload| <= |data|
    ensures r.Success? ==> r.value.typeCode < Pow256(4) && r.value.length < Pow256(4)
    ensures r.Success? ==> |r.value.payload| <= r.value.length
    ensures r.Success? && r.value.length == 0 ==> r.value.payload == []
    ensures r.Success? && |r.value.payload| < r.value.length ==> r.value.next == |data|
    ensures r.Success? ==> r.value.payload == data[r.value.next - |r.value.payload|..r.value.next]
    ensures r.Failure? ==> (r.error == TruncatedHeader <==> pos + 24 > |data|)
  {
    if pos + 24 > |data| then Failure(TruncatedHeader)
    else
      var typeCode := U32At(data, pos + 16);
      var length := U32At(data, pos + 20);
      var name :- ReadName(data, pos + 24);
      var start := name.1;
      var stop := if length == 0 then start else Min(start + length, |data|);
      Success(RawRecord(typeCode, length, name.0, data[start..stop], stop))
  }

  /** What a record is read from: the type and length are the two little-endian words after the
      magic, the name is the zero-terminated name that follows them and the payload comes right after
      it; the read fails exactly when the header or the name runs past the end. */
  lemma {:induction false} ReadRecordReads(data: seq<byte>, pos: nat)
    requires MagicAt(data, pos)
    ensures var r := ReadRecord(data, pos);
      && (r.Failure? <==> pos + 24 > |data| || ReadName(data, pos + 24).Failure?)
      && (r.Success? ==> r.value.typeCode == U32At(data, pos + 16) && r.value.length == U32At(data, pos + 20))
      && (r.Success? ==> ReadName(data, pos + 24) == Success((r.value.name, r.value.next - |r.value.payload|)))
  {
  }

  /** Length of `data[0:len(data) - 2]` under Python's slicing rules. */
  function StrippedLength(n: nat): nat
  {
    if n >= 2 then n - 2 else 0
  }

  /** Turns a payload into a value by its type code. */
  function Interpret(typeCode: nat, length: nat, payload: seq<byte>): Result<Value, DecodeError>
  {
    if length == 0 then Success(Null)
    else if typeCode == 0 then
      if |payload| == 4 then Success(Int(Signed(payload))) else Failure(WrongIntegerWidth)
    else if typeCode == 1 then
      match DecodeLE(payload[..StrippedLength(|payload|)])
      case None => Failure(MalformedText)
      case Some(s) => Success(Text(s))
    else if typeCode == 3 then Success(Bool(payload != [0, 0, 0, 0]))
    else if typeCode == 4 then
      if |payload| == 8 then Success(Int(Signed(payload))) else Failure(WrongIntegerWidth)
    else if typeCode == 6 then Success(Text(Hex(payload)))
    else Success(Blob(payload))
  }

  /** What each type code makes of a payload: a zero length gives `None` whatever the type; types 0
      and 4 read exactly 4 or 8 bytes as a signed little-endian integer; type 1 reads the payload
      minus its last two bytes as UTF-16LE text; type 3 is true unless the payload is four zero
      bytes; type 6 is the payload in hexadecimal; every other type keeps the raw bytes. */
  lemma {:induction false} InterpretByType(typeCode: nat, length: nat, payload: seq<byte>)
    ensures var r := Interpret(typeCode, length, payload);
      && (length == 0 ==> r == Success(Null))
      && (r.Success? && r.value.Null? ==> length == 0)
      && (length > 0 && typeCode == 0 ==>
            && (r.Success? <==> |payload| == 4)
            && (r.Success? ==> r.value.Int? && -0x8000_0000 <= r.value.i < 0x8000_0000
                               && EncodeSigned(r.value.i, 4) == payload))
      && (length > 0 && typeCode == 4 ==>
            && (r.Success? <==> |payload| == 8)
            && (r.Success? ==> r.value.Int? && -0x8000_0000_0000_0000 <= r.value.i < 0x8000_0000_0000_0000
                               && EncodeSigned(r.value.i, 8) == payload))
      && (length > 0 && typeCode == 1 ==>
            && (r.Success? ==> r.value.Text? && EncodeLE(r.value.s) == payload[..StrippedLength(|payload|)])
            && (StrippedLength(|payload|) % 2 == 1 ==> r == Failure(MalformedText)))
      && (length > 0 && typeCode == 3 ==> r.Success? && r.value.Bool? && (r.value.b <==> payload != [0, 0, 0, 0]))
      && (length > 0 && typeCode == 6 ==>
            r == Success(Text(Hex(payload))) && |r.value.s| == 2 * |payload| && Unhex(r.value.s) == payload)
      && (length > 0 && (typeCode == 2 || typeCode == 5 || typeCode >= 7) ==> r == Success(Blob(payload)))
      && (r.Failure? ==> r.error == WrongIntegerWidth || r.error == MalformedText)
  {
    if length > 0 {
      if typeCode == 0 && |payload| == 4 {
        EncodeSignedSigned(payload);
      } else if typeCode == 4 && |payload| == 8 {
        EncodeSignedSigned(payload);
      } else if typeCode == 1 {
        var stripped := payload[..StrippedLength(|payload|)];
        if DecodeLE(stripped).Some? {
          EncodeLEDecodeLE(stripped, DecodeLE(stripped).value);
        }
      } else if typeCode == 6 {
        UnhexHex(payload);
      }
    }
  }

  /** Every text stored as type 1 with a two-byte terminator reads back as that text. */
  lemma {:induction false} InterpretText(s: string, terminator: seq<byte>)
    requires |terminator| == 2
    ensures Interpret(1, |EncodeLE(s)| + 2, EncodeLE(s) + terminator) == Success(Text(s))
  {
    var payload := EncodeLE(s) + terminator;
    assert payload[..StrippedLength(|payload|)] == EncodeLE(s);
    DecodeLEEncodeLE(s);
  }

  function DecodeName(units: seq<CodeUnit>): Result<string, DecodeError>
  {
    match Decode(units)
    case None => Failure(MalformedName)
    case Some(s) => Success(s)
  }

  /** Decodes records from `pos` into `meta` until the magic is missing. */
  function DecodeTable(data: seq<byte>, pos: nat, meta: Metadata): (r: Result<Metadata, DecodeError>)
    ensures !MagicAt(data, pos) ==> r == Success(meta)
    ensures r.Success? ==> meta.Keys <= r.value.Keys
    ensures r.Failure? ==> r.error != SeekOutOfRange
    decreases |data| - pos
  {
    if !MagicAt(data, pos) then Success(meta)
    else
      var record :- ReadRecord(data, pos);
      var name :- DecodeName(record.name);
      var value :- Interpret(record.typeCode, record.length, record.payload);
      DecodeTable(data, record.next, meta[name := value])
  }

  /** `extract_metadata`: decode the record table at the fixed offset. */
  function ExtractMetadata(data: seq<byte>): (r: Result<Metadata, DecodeError>)
    ensures r == Failure(SeekOutOfRange) <==> |data| < TableOffset
    ensures |data| >= TableOffset && !MagicAt(data, TableOffset) ==> r == Success(map[])
  {
    if |data| < TableOffset then Failure(SeekOutOfRange)
    else DecodeTable(data, TableOffset, map[])
  }

  // ---------------------------------------------------------------------------------------
  // The writer side: what a well-formed table looks like, used to state what decoding reads.

  /** A record as a writer would produce it. */
  datatype Entry = Entry(typeCode: nat, name: string, payload: seq<byte>)

  /** Type and length fit in a u32 and the name has no NUL (which would end it early). */
  predicate Writable(e: Entry)
  {
    && e.typeCode < Pow256(4)
    && |e.payload| < Pow256(4)
    && forall i :: 0 <= i < |e.name| ==> e.name[i] != '\0'
  }

  /** Bytes a fully present entry occupies: magic, type, length, name with terminator, payload. */
  function EntrySize(e: Entry): nat
  {
    16 + 4 + 4 + (2 * |Encode(e.name)| + 2) + |e.payload|
  }

  /** `data` holds the entry `e` in full at `pos`, laid out as a writer lays out a record: the
      magic, the type code and the payload length as little-endian u32s, the name as UTF-16LE
      code units ended by a zero unit, then the payload. */
  predicate EntryAt(data: seq<byte>, pos: nat, e: Entry)
  {
    var units := Encode(e.name);
    var payloadStart := pos + 24 + 2 * |units| + 2;
    && Writable(e)
    && pos + EntrySize(e) <= |data|
    && MagicAt(data, pos)
    && U32At(data, pos + 16) == e.typeCode
    && U32At(data, pos + 20) == |e.payload|
    && (forall k :: 0 <= k < |units| ==> NameUnit(data, pos + 24, k) == units[k])
    && NameUnit(data, pos + 24, |units|) == 0
    && data[payloadStart..payloadStart + |e.payload|] == e.payload
  }

  /** The entry's payload is one its type code accepts. */
  predicate Interpretable(e: Entry)
  {
    Interpret(e.typeCode, |e.payload|, e.payload).Success?
  }

  /** `data` holds the entries back to back from `pos`, each with a payload its type accepts,
      and then bytes that do not start with the magic. */
  predicate TableAt(data: seq<byte>, pos: nat, es: seq<Entry>)
    decreases |es|
  {
    if |es| == 0 then !MagicAt(data, pos)
    else Interpretable(es[0]) && EntryAt(data, pos, es[0]) && TableAt(data, pos + EntrySize(es[0]), es[1..])
  }

  /** The value an entry stores (`None` for a payload its type rejects, which a table never holds). */
  function EntryValue(e: Entry): Value
  {
    match Interpret(e.typeCode, |e.payload|, e.payload)
    case Success(v) => v
    case Failure(_) => Null
  }

  /** Stores the entries' values into `meta` in stream order. */
  function Apply(meta: Metadata, es: seq<Entry>): Metadata
    decreases |es|
  {
    if |es| == 0 then meta else Apply(meta[es[0].name := EntryValue(es[0])], es[1..])
  }

  /** A name is stored exactly when it was stored before or some entry carries it. */
  lemma {:induction false} ApplyKeys(meta: Metadata, es: seq<Entry>, key: string)
    ensures key in Apply(meta, es) <==> key in meta || exists j :: 0 <= j < |es| && es[j].name == key
    decreases |es|
  {
    if |es| > 0 {
      var meta' := meta[es[0].name := EntryValue(es[0])];
      ApplyKeys(meta', es[1..], key);
      if exists j :: 0 <= j < |es| - 1 && es[1..][j].name == key {
        var j :| 0 <= j < |es| - 1 && es[1..][j].name == key;
        assert es[j + 1].name == key;
      }
      if exists j :: 0 <= j < |es| && es[j].name == key {
        var j :| 0 <= j < |es| && es[j].name == key;
        if j > 0 {
          assert es[1..][j - 1].name == key;
        }
      }
    }
  }

  /** Entries that do not carry a name leave its value as it was. */
  lemma {:induction false} ApplyUntouched(meta: Metadata, es: seq<Entry>, key: string)
    requires forall j :: 0 <= j < |es| ==> es[j].name != key
    ensures key in Apply(meta, es) <==> key in meta
    ensures key in meta ==> Apply(meta, es)[key] == meta[key]
    decreases |es|
  {
    if |es| > 0 {
      var meta' := meta[es[0].name := EntryValue(es[0])];
      assert forall j :: 0 <= j < |es| - 1 ==> es[1..][j] == es[j + 1];
      ApplyUntouched(meta', es[1..], key);
    }
  }

  /** A repeated name keeps the value of its LAST entry. */
  lemma {:induction false} ApplyLastWins(meta: Metadata, es: seq<Entry>, key: string, j: nat)
    requires j < |es| && es[j].name == key
    requires forall k :: j < k < |es| ==> es[k].name != key
    ensures key in Apply(meta, es) && Apply(meta, es)[key] == EntryValue(es[j])
    decreases |es|
  {
    var meta' := meta[es[0].name := EntryValue(es[0])];
    assert forall k :: 0 <= k < |es| - 1 ==> es[1..][k] == es[k + 1];
    if j == 0 {
      ApplyUntouched(meta', es[1..], key);
    } else {
      ApplyLastWins(meta', es[1..], key, j - 1);
    }
  }

  /** Reading a name written as code units followed by a zero unit. */
  lemma {:induction false} ReadNameOfUnits(data: seq<byte>, pos: nat, units: seq<CodeUnit>)
    requires pos + 2 * |units| + 2 <= |data|
    requires forall k :: 0 <= k < |units| ==> NameUnit(data, pos, k) == units[k] != 0
    requires NameUnit(data, pos, |units|) == 0
    ensures ReadName(data, pos) == Success((units, pos + 2 * |units| + 2))
    decreases |units|
  {
    if |units| > 0 {
      forall k | 0 <= k < |units| - 1
        ensures NameUnit(data, pos + 2, k) == units[1..][k] != 0
      {
        assert NameUnit(data, pos + 2, k) == NameUnit(data, pos, k + 1);
      }
      assert NameUnit(data, pos + 2, |units| - 1) == NameUnit(data, pos, |units|);
      ReadNameOfUnits(data, pos + 2, units[1..]);
      assert UnitAt(data, pos) == NameUnit(data, pos, 0) == units[0];
      assert [units[0]] + units[1..] == units;
    }
  }

  /** A record laid out by a writer is read back field for field, and reading resumes right
      after its payload. */
  lemma {:induction false} ReadRecordOfEntry(data: seq<byte>, pos: nat, e: Entry)
    requires EntryAt(data, pos, e)
    ensures MagicAt(data, pos)
    ensures ReadRecord(data, pos) == Success(RawRecord(e.typeCode, |e.payload|, Encode(e.name), e.payload, pos + EntrySize(e)))
  {
    assert MagicAt(data, pos);
    var units := Encode(e.name);
    var start := pos + 24 + 2 * |units| + 2;
    var stop := start + |e.payload|;
    assert ReadName(data, pos + 24) == Success((units, start)) by {
      EncodeNoZero(e.name);
      ReadNameOfUnits(data, pos + 24, units);
    }
    assert stop <= |data| && data[start..stop] == e.payload;
    assert (if |e.payload| == 0 then start else Min(start + |e.payload|, |data|)) == stop;
  }

  /** One step of the table loop, for a record whose fields are known. */
  lemma {:induction false} DecodeTableStep(data: seq<byte>, pos: nat, meta: Metadata, record: RawRecord, name: string)
    requires MagicAt(data, pos)
    requires ReadRecord(data, pos) == Success(record)
    requires DecodeName(record.name) == Success(name)
    requires Interpret(record.typeCode, record.length, record.payload).Success?
    ensures DecodeTable(data, pos, meta)
         == DecodeTable(data, record.next, meta[name := Interpret(record.typeCode, record.length, record.payload).value])
  {
  }

  /** A laid-out entry whose payload its type accepts reads back as a record carrying its name
      and value, and the next record starts right after it. */
  lemma {:induction false} RecordOfEntry(data: seq<byte>, pos: nat, e: Entry) returns (record: RawRecord)
    requires EntryAt(data, pos, e) && Interpretable(e)
    ensures MagicAt(data, pos) && ReadRecord(data, pos) == Success(record)
    ensures record.next == pos + EntrySize(e)
    ensures DecodeName(record.name) == Success(e.name)
    ensures Interpret(record.typeCode, record.length, record.payload) == Success(EntryValue(e))
  {
    record := RawRecord(e.typeCode, |e.payload|, Encode(e.name), e.payload, pos + EntrySize(e));
    ReadRecordOfEntry(data, pos, e);
    DecodeEncode(e.name);
  }

  /** Decoding a table of laid-out entries stores exactly the entries' values, in order, and stops
      at the first position without the magic. */
  lemma {:induction false} DecodeTableOfEntries(data: seq<byte>, pos: nat, es: seq<Entry>, meta: Metadata)
    requires TableAt(data, pos, es)
    ensures DecodeTable(data, pos, meta) == Success(Apply(meta, es))
    decreases |es|
  {
    if |es| > 0 {
      var e := es[0];
      var record := RecordOfEntry(data, pos, e);
      var meta' := meta[e.name := EntryValue(e)];
      DecodeTableStep(data, pos, meta, record, e.name);
      DecodeTableOfEntries(data, record.next, es[1..], meta');
    }
  }

  /** `extract_metadata` on a container whose table holds the given entries. */
  lemma {:induction false} ExtractMetadataOfEntries(data: seq<byte>, es: seq<Entry>)
    requires |data| >= TableOffset && TableAt(data, TableOffset, es)
    ensures ExtractMetadata(data) == Success(Apply(map[], es))
  {
    DecodeTableOfEntries(data, TableOffset, es, map[]);
  }

  /** The record at `q` has the magic, but reading it raises: its header or name runs past the end,
      its name is not well-formed UTF-16, or its type rejects its payload. */
  predicate RecordRejected(data: seq<byte>, q: nat)
  {
    && MagicAt(data, q)
    && (|| ReadRecord(data, q).Failure?
        || DecodeName(ReadRecord(data, q).value.name).Failure?
        || Interpret(ReadRecord(data, q).value.typeCode, ReadRecord(data, q).value.length,
                     ReadRecord(data, q).value.payload).Failure?)
  }

  /** A rejected record ends the decode with an error; nothing decoded before it is returned. */
  lemma {:induction false} DecodeTableRejects(data: seq<byte>, q: nat, meta: Metadata)
    requires RecordRejected(data, q)
    ensures DecodeTable(data, q, meta).Failure?
    ensures DecodeTable(data, q, meta).error in {TruncatedHeader, TruncatedName, MalformedName, MalformedText, WrongIntegerWidth}
  {
    var r := ReadRecord(data, q);
    if r.Success? {
      if DecodeName(r.value.name).Success? {
        InterpretByType(r.value.typeCode, r.value.length, r.value.payload);
      }
    } else {
      ReadRecordReads(data, q);
    }
  }

  /** A payload cut short by the end of the stream is read as far as it goes: it is rejected when
      an integer type loses bytes of its declared width, and it is never rejected for a type other
      than the integer and text types. */
  lemma {:induction false} TruncatedPayload(data: seq<byte>, q: nat)
    requires MagicAt(data, q)
    requires ReadRecord(data, q).Success? && DecodeName(ReadRecord(data, q).value.name).Success?
    ensures var r := ReadRecord(data, q).value;
      && (|r.payload| < r.length ==> r.next == |data|)
      && (((r.typeCode == 0 && r.length == 4) || (r.typeCode == 4 && r.length == 8)) && |r.payload| < r.length ==>
            RecordRejected(data, q))
      && (r.typeCode != 0 && r.typeCode != 1 && r.typeCode != 4 ==> !RecordRejected(data, q))
  {
    var r := ReadRecord(data, q).value;
    InterpretByType(r.typeCode, r.length, r.payload);
  }

  /** `data` holds the entries back to back from `pos`, each with a payload its type accepts, and
      then a record that is rejected. */
  predicate EntriesThenRejected(data: seq<byte>, pos: nat, es: seq<Entry>)
    decreases |es|
  {
    if |es| == 0 then RecordRejected(data, pos)
    else Interpretable(es[0]) && EntryAt(data, pos, es[0]) && EntriesThenRejected(data, pos + EntrySize(es[0]), es[1..])
  }

  /** However many well-formed entries come first, a rejected record after them makes the whole
      decode fail; the values of the entries before it are not returned. */
  lemma {:induction false} DecodeTableRejectsAfter(data: seq<byte>, pos: nat, es: seq<Entry>, meta: Metadata)
    requires EntriesThenRejected(data, pos, es)
    ensures DecodeTable(data, pos, meta).Failure?
    ensures DecodeTable(data, pos, meta).error in {TruncatedHeader, TruncatedName, MalformedName, MalformedText, WrongIntegerWidth}
    decreases |es|
  {
    if |es| == 0 {
      DecodeTableRejects(data, pos, meta);
    } else {
      var e, next := es[0], pos + EntrySize(es[0]);
      var meta' := meta[e.name := EntryValue(e)];
      assert Interpretable(e) && EntryAt(data, pos, e) && EntriesThenRejected(data, next, es[1..]);
      var record := RecordOfEntry(data, pos, e);
      DecodeTableStep(data, pos, meta, record, e.name);
      DecodeTableRejectsAfter(data, next, es[1..], meta');
    }
  }

  /** `extract_metadata` raises as soon as it meets a record it cannot read, however many
      well-formed records come before it: the whole decode fails. */
  lemma {:induction false} ExtractMetadataRejects(data: seq<byte>, es: seq<Entry>)
    requires |data| >= TableOffset && EntriesThenRejected(data, TableOffset, es)
    ensures ExtractMetadata(data).Failure?
    ensures ExtractMetadata(data).error != SeekOutOfRange
  {
    DecodeTableRejectsAfter(data, TableOffset, es, map[]);
  }

  // ---------------------------------------------------------------------------------------
  // The original air date.

  datatype AirDateError =
    | Undecodable(cause: DecodeError)  // the container's metadata could not be decoded
    | NotText                          // the field holds a non-string value (AttributeError/TypeError)
    | TooFewFilenameParts              // the file name has fewer than five '_'-separated parts

  /** `value.split('T')[0]`: the part of the field before the first 'T'. */
  function DatePart(field: string): (d: string)
    ensures |d| <= |field| && field[..|d|] == d
    ensures 'T' !in d
    ensures |d| < |field| ==> field[|d|] == 'T'
  {
    SplitHead(field, 'T');
    Split(field, 'T')[0]
  }

  /** Parts 2, 3 and 4 of the file name split on '_', joined by '-'; an IndexError when there are
      fewer than five parts. */
  function DateFromFilename(path: string): (r: Result<string, AirDateError>)
    ensures r.Success? <==> |Split(Basename(path), '_')| >= 5
    ensures r.Failure? ==> r.error == TooFewFilenameParts
  {
    var parts := Split(Basename(path), '_');
    if |parts| < 5 then Failure(TooFewFilenameParts)
    else Success(parts[2] + "-" + parts[3] + "-" + parts[4])
  }

  /** The broadcast-date field is missing, `None`, or the unset sentinel. */
  predicate FieldUnset(meta: Metadata)
  {
    BroadcastDateKey !in meta || meta[BroadcastDateKey].Null? || meta[BroadcastDateKey] == Text(UnsetBroadcastDate)
  }

  /** `extract_original_air_date` with decoded metadata: the date part of the broadcast-date field,
      or, when that is missing or unset, the date taken from the file name. */
  function OriginalAirDate(meta: Metadata, path: string, parseFromFilename: bool): (r: Result<Option<string>, AirDateError>)
    ensures !FieldUnset(meta) && meta[BroadcastDateKey].Text? ==>
      r == Success(Some(DatePart(meta[BroadcastDateKey].s)))
    ensures !FieldUnset(meta) && !meta[BroadcastDateKey].Text? ==> r == Failure(NotText)
    ensures FieldUnset(meta) && !parseFromFilename ==> r == Success(None)
    ensures FieldUnset(meta) && parseFromFilename ==>
      (r.Success? <==> DateFromFilename(path).Success?) &&
      (r.Success? ==> r.value == Some(DateFromFilename(path).value))
  {
    if FieldUnset(meta) then
      if parseFromFilename then
        match DateFromFilename(path)
        case Failure(e) => Failure(e)
        case Success(d) => Success(Some(d))
      else Success(None)
    else
      var field := meta[BroadcastDateKey];
      if field.Text? then Success(Some(DatePart(field.s)))
      else Failure(NotText)
  }

  /** `extract_original_air_date` without metadata: decode the container first. */
  function OriginalAirDateOfContainer(data: seq<byte>, path: string, parseFromFilename: bool): (r: Result<Option<string>, AirDateError>)
    ensures ExtractMetadata(data).Failure? ==> r == Failure(Undecodable(ExtractMetadata(data).error))
    ensures ExtractMetadata(data).Success? ==> r == OriginalAirDate(ExtractMetadata(data).value, path, parseFromFilename)
  {
    match ExtractMetadata(data)
    case Failure(e) => Failure(Undecodable(e))
    case Success(meta) => OriginalAirDate(meta, path, parseFromFilename)
  }

  /** `extract_original_air_date` reading a container: one shorter than the table offset cannot be
      decoded, and one whose table holds the given entries yields the air date of the metadata
      those entries store. */
  lemma {:induction false} AirDateOfContainer(data: seq<byte>, es: seq<Entry>, path: string, parseFromFilename: bool)
    ensures |data| < TableOffset ==>
      OriginalAirDateOfContainer(data, path, parseFromFilename) == Failure(Undecodable(SeekOutOfRange))
    ensures |data| >= TableOffset && TableAt(data, TableOffset, es) ==>
      OriginalAirDateOfContainer(data, path, parseFromFilename) == OriginalAirDate(Apply(map[], es), path, parseFromFilename)
  {
    if |data| >= TableOffset && TableAt(data, TableOffset, es) {
      ExtractMetadataOfEntries(data, es);
    }
  }

  /** A piece without the separator splits to itself in front of whatever follows. */
  lemma {:induction false} SplitAfterPiece(p: string, sep: char, rest: string)
    requires sep !in p
    ensures Split(p + [sep] + rest, sep) == [p] + Split(rest, sep)
    decreases |p|
  {
    if |p| == 0 {
      assert p + [sep] + rest == [sep] + rest;
      assert ([sep] + rest)[1..] == rest;
    } else {
      var s := p + [sep] + rest;
      assert s[0] == p[0] && s[1..] == p[1..] + [sep] + rest;
      SplitAfterPiece(p[1..], sep, rest);
      var r := Split(s[1..], sep);
      assert r[0] == p[1..] && r[1..] == Split(rest, sep);
      assert Split(s, sep) == [[p[0]] + r[0]] + r[1..];
      assert [p[0]] + p[1..] == p;
    }
  }

  lemma {:induction false} SplitPiece(p: string, sep: char)
    requires sep !in p
    ensures Split(p, sep) == [p]
    decreases |p|
  {
    if |p| > 0 {
      SplitPiece(p[1..], sep);
      assert [p[0]] + p[1..] == p;
    }
  }

  /** Splitting undoes joining when no piece holds the separator. */
  lemma {:induction false} SplitJoin(parts: seq<string>, sep: char)
    requires |parts| >= 1
    requires forall i :: 0 <= i < |parts| ==> sep !in parts[i]
    ensures Split(Join(parts, [sep]), sep) == parts
    decreases |parts|
  {
    if |parts| == 1 {
      SplitPiece(parts[0], sep);
    } else {
      SplitJoin(parts[1..], sep);
      SplitAfterPiece(parts[0], sep, Join(parts[1..], [sep]));
      assert [parts[0]] + parts[1..] == parts;
    }
  }

  lemma {:induction false} JoinNoSlash(parts: seq<string>, sep: string)
    requires '/' !in sep
    requires forall i :: 0 <= i < |parts| ==> '/' !in parts[i]
    ensures '/' !in Join(parts, sep)
    decreases |parts|
  {
    if |parts| > 1 {
      JoinNoSlash(parts[1..], sep);
    }
  }

  /** The base name of `dir/name` is `name` when `name` has no '/'. */
  lemma {:induction false} BasenameAfterSlash(dir: string, name: string)
    requires '/' !in name
    ensures Basename(dir + "/" + name) == name
    decreases |name|
  {
    var path := dir + "/" + name;
    if |name| > 0 {
      var init := name[..|name| - 1];
      BasenameAfterSlash(dir, init);
      assert path[..|path| - 1] == dir + "/" + init;
      assert path[|path| - 1] == name[|name| - 1] != '/';
      assert Basename(path) == Basename(path[..|path| - 1]) + [path[|path| - 1]];
      assert init + [name[|name| - 1]] == name;
    } else {
      assert path[|path| - 1] == '/';
    }
  }

  /** A path with no '/' is its own base name. */
  lemma {:induction false} BasenameWithoutSlash(name: string)
    requires '/' !in name
    ensures Basename(name) == name
  {
  }

  /** The file-name fallback: for a recording named `<a>_<b>_<year>_<month>_<day>[_...]` with no
      usable broadcast-date field, the air date is `<year>-<month>-<day>`. */
  lemma {:induction false} AirDateFromFilename(meta: Metadata, dir: string, parts: seq<string>)
    requires FieldUnset(meta)
    requires |parts| >= 5
    requires forall i :: 0 <= i < |parts| ==> '_' !in parts[i] && '/' !in parts[i]
    ensures OriginalAirDate(meta, dir + "/" + Join(parts, "_"), true)
         == Success(Some(parts[2] + "-" + parts[3] + "-" + parts[4]))
  {
    var name := Join(parts, "_");
    JoinNoSlash(parts, "_");
    BasenameAfterSlash(dir, name);
    SplitJoin(parts, '_');
  }

  /** The same fallback for a bare file name with no directory part. */
  lemma {:induction false} AirDateFromBareFilename(meta: Metadata, parts: seq<string>)
    requires FieldUnset(meta)
    requires |parts| >= 5
    requires forall i :: 0 <= i < |parts| ==> '_' !in parts[i] && '/' !in parts[i]
    ensures OriginalAirDate(meta, Join(parts, "_"), true)
         == Success(Some(parts[2] + "-" + parts[3] + "-" + parts[4]))
  {
    var name := Join(parts, "_");
    JoinNoSlash(parts, "_");
    BasenameWithoutSlash(name);
    SplitJoin(parts, '_');
  }
}
