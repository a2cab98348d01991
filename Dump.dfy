/**
 * `scripts/dump.py`: the floor file reader. A floor file is a 128-byte
 * header (signature, comment, version, floor count) followed by one
 * `MAP_SIZE`-byte block per floor, one byte per cell. The reader checks the
 * header, renders every floor as text with its difficulty, hides the
 * floors that contain a dispenser, and reports any bytes left over.
 */
module Dump {

  newtype byte = b: int | 0 <= b < 256

  /**
   * The board size as the script declares it (dump.py:19-21), its own copy,
   * independent of the solver's constants in `Grid`; `MAP_SIZE` is
   * `MAP_W * MAP_H`.
   */
  const MAP_W: int := 20
  const MAP_H: int := 14
  const MAP_SIZE: int := 280

  const SIG_LEN: int := 12
  const COMMENT_LEN: int := 108
  /** `ctypes.sizeof(FloorFileHeader)`: 12 + 108 + 4 + 4. */
  const HEADER_SIZE: int := SIG_LEN + COMMENT_LEN + 4 + 4
  const VERSION_AT: int := SIG_LEN + COMMENT_LEN
  const COUNT_AT: int := VERSION_AT + 4

  /** `FLOOR_FILE_SIG = b'IceTower\r\n\x1a\0'`. */
  const FLOOR_FILE_SIG: seq<byte> := [0x49, 0x63, 0x65, 0x54, 0x6f, 0x77, 0x65, 0x72, 0x0d, 0x0a, 0x1a, 0x00]

  /** The `ValueError`s the reader raises. */
  datatype Error =
    | MalformedFile                   // fewer bytes than the header
    | ByteOutOfRange                  // `bytes((x,))` of a negative `c_byte`
    | BadSignature(sig: seq<byte>)
    | UnsupportedVersion(version: int)

  datatype Result<T> = Ok(value: T) | Err(error: Error)

  datatype Header = Header(version: int, comment: seq<byte>, floorCount: int)

  // ------------------------------------------------------------ header

  /** `ctype_array_to_bytes`: one byte per element; an element outside 0..255 raises. */
  function CtypeArrayToBytes(arr: seq<int>): (r: Result<seq<byte>>)
    ensures r.Ok? <==> forall i :: 0 <= i < |arr| ==> 0 <= arr[i] < 256
    ensures r.Ok? ==> |r.value| == |arr| && forall i :: 0 <= i < |arr| ==> r.value[i] as int == arr[i]
    ensures r.Err? ==> r.error == ByteOutOfRange
  {
    if |arr| == 0 then Ok([])
    else if !(0 <= arr[0] < 256) then Err(ByteOutOfRange)
    else
      match CtypeArrayToBytes(arr[1..])
      case Ok(rest) => Ok([arr[0] as byte] + rest)
      case Err(e) => Err(e)
  }

  /** A file byte read as a `c_byte` (two's complement). */
  function SignedByte(b: byte): (r: int)
    ensures -128 <= r < 128 && (r - b as int) % 256 == 0
  {
    if b < 128 then b as int else b as int - 256
  }

  /**
   * The elements of `bs` read as `c_byte`s: `bytes(...)` of them succeeds
   * exactly when no byte has its top bit set.
   */
  function SignedView(bs: seq<byte>): (r: seq<int>)
    ensures |r| == |bs| && forall i :: 0 <= i < |bs| ==> r[i] == SignedByte(bs[i])
    ensures CtypeArrayToBytes(r).Ok? <==> forall i :: 0 <= i < |bs| ==> bs[i] < 128
  {
    seq(|bs|, i requires 0 <= i < |bs| => SignedByte(bs[i]))
  }

  /** The elements of `bs` read as `c_ubyte`s. */
  function UnsignedView(bs: seq<byte>): (r: seq<int>)
    ensures |r| == |bs| && forall i :: 0 <= i < |bs| ==> r[i] == bs[i] as int
  {
    seq(|bs|, i requires 0 <= i < |bs| => bs[i] as int)
  }

  /** A `c_int`: four bytes, little-endian, two's complement. */
  function Int32LE(bs: seq<byte>): (r: int)
    requires |bs| == 4
    ensures -0x8000_0000 <= r < 0x8000_0000
  {
    var u := bs[0] as int + 0x100 * bs[1] as int + 0x1_0000 * bs[2] as int + 0x100_0000 * bs[3] as int;
    if u < 0x8000_0000 then u else u - 0x1_0000_0000
  }

  /** The four little-endian bytes of a 32-bit signed value. */
  function Int32Bytes(v: int): (r: seq<byte>)
    requires -0x8000_0000 <= v < 0x8000_0000
    ensures |r| == 4
  {
    var u := if v < 0 then v + 0x1_0000_0000 else v;
    var u1 := u / 0x100;
    var u2 := u1 / 0x100;
    var u3 := u2 / 0x100;
    [(u % 0x100) as byte, (u1 % 0x100) as byte, (u2 % 0x100) as byte, u3 as byte]
  }

  /** Reading back the bytes of a 32-bit value gives the value. */
  lemma Int32RoundTrip(v: int)
    requires -0x8000_0000 <= v < 0x8000_0000
    ensures Int32LE(Int32Bytes(v)) == v
  {
    var u := if v < 0 then v + 0x1_0000_0000 else v;
    var u1 := u / 0x100;
    var u2 := u1 / 0x100;
    var b := Int32Bytes(v);
    assert u == b[0] as int + 0x100 * u1;
    assert u1 == b[1] as int + 0x100 * u2;
    assert u2 == b[2] as int + 0x100 * b[3] as int;
  }

  /** Encoding the value read from four bytes gives the bytes back: `Int32LE` is a bijection. */
  lemma Int32BytesRoundTrip(b: seq<byte>)
    requires |b| == 4
    ensures Int32Bytes(Int32LE(b)) == b
  {
    var u := b[0] as int + 0x100 * b[1] as int + 0x1_0000 * b[2] as int + 0x100_0000 * b[3] as int;
    var x2 := b[2] as int + 0x100 * b[3] as int;
    var x1 := b[1] as int + 0x100 * x2;
    assert u == b[0] as int + 0x100 * x1;
    assert u / 0x100 == x1 && u % 0x100 == b[0] as int;
    assert x1 / 0x100 == x2 && x1 % 0x100 == b[1] as int;
    assert x2 / 0x100 == b[3] as int && x2 % 0x100 == b[2] as int;
    var r := Int32Bytes(Int32LE(b));
    assert r[0] == b[0] && r[1] == b[1] && r[2] == b[2] && r[3] == b[3];
  }

  /** `.rstrip(b'\0')`: `s` without its trailing NUL bytes. */
  function RStripNul(s: seq<byte>): (r: seq<byte>)
    ensures |r| <= |s| && r == s[..|r|]
    ensures |r| > 0 ==> r[|r| - 1] != 0
    ensures forall i :: |r| <= i < |s| ==> s[i] == 0
  {
    if |s| > 0 && s[|s| - 1] == 0 then RStripNul(s[..|s| - 1]) else s
  }

  /** Unsigned bytes always pass `ctype_array_to_bytes` unchanged. */
  lemma UnsignedBytesPass(bs: seq<byte>)
    ensures CtypeArrayToBytes(UnsignedView(bs)) == Ok(bs)
  {
    var r := CtypeArrayToBytes(UnsignedView(bs));
    assert r.value == bs;
  }

  /**
   * The header checks, in the script's order: the length, the signature
   * bytes (read as `c_byte`), the signature, the version. The comment goes
   * through `ctype_array_to_bytes` and `rstrip`.
   */
  function ReadHeader(file: seq<byte>): (r: Result<Header>)
    ensures r == Err(MalformedFile) <==> |file| < HEADER_SIZE
    ensures |file| >= HEADER_SIZE ==>
      (r == Err(ByteOutOfRange) <==> exists i :: 0 <= i < SIG_LEN && file[i] >= 128)
    ensures r.Ok? <==>
      |file| >= HEADER_SIZE && file[..SIG_LEN] == FLOOR_FILE_SIG && Int32LE(file[VERSION_AT..COUNT_AT]) == 1
    ensures r.Ok? ==>
      r.value == Header(1, RStripNul(file[SIG_LEN..VERSION_AT]), Int32LE(file[COUNT_AT..HEADER_SIZE]))
  {
    if |file| < HEADER_SIZE then Err(MalformedFile)
    else
      match CtypeArrayToBytes(SignedView(file[..SIG_LEN]))
      case Err(e) => Err(e)
      case Ok(sig) =>
        assert sig == file[..SIG_LEN];
        if sig != FLOOR_FILE_SIG then Err(BadSignature(sig))
        else
          var version := Int32LE(file[VERSION_AT..COUNT_AT]);
          if version != 1 then Err(UnsupportedVersion(version))
          else
            UnsignedBytesPass(file[SIG_LEN..VERSION_AT]);
            match CtypeArrayToBytes(UnsignedView(file[SIG_LEN..VERSION_AT]))
            case Ok(comment) => Ok(Header(version, RStripNul(comment), Int32LE(file[COUNT_AT..HEADER_SIZE])))
  }

  // ------------------------------------------------------------ one floor

  /** `FLOOR_REPR_MAP.get(c, ('?', -1))`: the character and the difficulty of a cell byte. */
  function FloorRepr(c: byte): (r: (char, int))
    ensures -1 <= r.1 <= 5
    ensures r.1 == 5 <==> c == 8
    ensures r.0 == '?' <==> !(c <= 10 || c == 15 || c == 255)
  {
    match c
    case 0 => (' ', 0)
    case 1 => ('#', 0)
    case 2 => ('%', 1)
    case 3 => ('*', 1)
    case 4 => ('^', 4)
    case 5 => ('v', 4)
    case 6 => ('<', 4)
    case 7 => ('>', 4)
    case 8 => ('+', 5)
    case 9 => ('-', 2)
    case 10 => ('$', 3)
    case 15 => ('!', -1)
    case 255 => ('@', -1)
    case _ => ('?', -1)
  }

  function Max(a: int, b: int): int
  {
    if a >= b then a else b
  }

  /** The difficulty after the first `n` cells: the running maximum of the loop, from 0. */
  function DiffOf(content: seq<byte>, n: nat): (r: int)
    requires n <= |content|
    ensures 0 <= r <= 5
  {
    if n == 0 then 0 else Max(FloorRepr(content[n - 1]).1, DiffOf(content, n - 1))
  }

  /**
   * The difficulty is the largest table difficulty among the first `n`
   * cells, and at least 0. It is 5 exactly when a dispenser is among them;
   * a byte missing from the table (difficulty -1) never raises it.
   */
  lemma {:induction false} DiffOfMaximum(content: seq<byte>, n: nat)
    requires n <= |content|
    ensures forall k :: 0 <= k < n ==> FloorRepr(content[k]).1 <= DiffOf(content, n)
    ensures DiffOf(content, n) == 0 || exists k :: 0 <= k < n && FloorRepr(content[k]).1 == DiffOf(content, n)
    ensures DiffOf(content, n) == 5 <==> exists k :: 0 <= k < n && content[k] == 8
  {
    if n > 0 {
      DiffOfMaximum(content, n - 1);
      var d := FloorRepr(content[n - 1]).1;
      if d > DiffOf(content, n - 1) {
        assert FloorRepr(content[n - 1]).1 == DiffOf(content, n);
      }
    }
  }

  /** Helper for `DecodeRow`: one more cell folds its difficulty in with `max`. */
  lemma DiffStep(content: seq<byte>, k: int)
    requires 0 <= k < |content|
    ensures DiffOf(content, k + 1) == Max(FloorRepr(content[k]).1, DiffOf(content, k))
  {
  }

  /** The first `j` characters of text row `i`. */
  function RowCells(content: seq<byte>, i: int, j: int): (r: seq<char>)
    requires |content| == MAP_SIZE && 0 <= i < MAP_H && 0 <= j <= MAP_W
    ensures |r| == j
  {
    seq(j, jj requires 0 <= jj < j => FloorRepr(content[i * MAP_W + jj]).0)
  }

  /** Helper for `DecodeRow`: one more cell appends its table character. */
  lemma RowCellsStep(content: seq<byte>, i: int, j: int)
    requires |content| == MAP_SIZE && 0 <= i < MAP_H && 0 <= j < MAP_W
    ensures RowCells(content, i, j + 1) == RowCells(content, i, j) + [FloorRepr(content[i * MAP_W + j]).0]
  {
  }

  /** The text of the first `n` rows, each `MAP_W` characters and a newline. */
  function Rendered(content: seq<byte>, n: int): (r: seq<char>)
    requires |content| == MAP_SIZE && 0 <= n <= MAP_H
  {
    if n == 0 then [] else Rendered(content, n - 1) + RowCells(content, n - 1, MAP_W) + ['\n']
  }

  /** The position of the character of cell (row `i`, column `j`) in the rendered text. */
  function TextPos(i: int, j: int): int
  {
    i * (MAP_W + 1) + j
  }

  /**
   * The layout of a rendered floor: `MAP_H` lines of `MAP_W + 1`
   * characters; the character of cell (row `i`, column `j`) is at
   * `TextPos(i, j)` and every line ends in a newline.
   */
  lemma {:induction false} RenderedLayout(content: seq<byte>, n: int)
    requires |content| == MAP_SIZE && 0 <= n <= MAP_H
    ensures |Rendered(content, n)| == n * (MAP_W + 1)
    ensures forall i, j :: 0 <= i < n && 0 <= j < MAP_W ==>
      Rendered(content, n)[TextPos(i, j)] == FloorRepr(content[i * MAP_W + j]).0
    ensures forall i :: 0 <= i < n ==> Rendered(content, n)[TextPos(i, MAP_W)] == '\n'
  {
    if n > 0 {
      RenderedLayout(content, n - 1);
      var prev := Rendered(content, n - 1);
      var line := RowCells(content, n - 1, MAP_W) + ['\n'];
      assert Rendered(content, n) == prev + line;
      forall i, j | 0 <= i < n && 0 <= j < MAP_W
        ensures Rendered(content, n)[TextPos(i, j)] == FloorRepr(content[i * MAP_W + j]).0
      {
        if i == n - 1 {
          assert TextPos(i, j) == |prev| + j;
        }
      }
      forall i | 0 <= i < n
        ensures Rendered(content, n)[TextPos(i, MAP_W)] == '\n'
      {
        if i == n - 1 {
          assert TextPos(i, MAP_W) == |prev| + MAP_W;
        }
      }
    }
  }

  /** The per-floor decode loop: render the cells row by row and track the difficulty. */
  method DecodeFloor(content: seq<byte>) returns (text: seq<char>, diff: int)
    requires |content| == MAP_SIZE
    ensures text == Rendered(content, MAP_H)
    ensures diff == DiffOf(content, MAP_SIZE)
  {
    diff := 0;
    var buf: seq<char> := [];
    for i := 0 to MAP_H
      invariant buf == Rendered(content, i)
      invariant diff == DiffOf(content, i * MAP_W)
    {
      buf, diff := DecodeRow(content, i, buf, diff);
      buf := buf + ['\n'];
    }
    text := buf;
  }

  /** One row of the decode loop: append the row's characters to `buf` and fold their difficulties into `diff`. */
  method DecodeRow(content: seq<byte>, i: int, buf: seq<char>, diff: int) returns (buf': seq<char>, diff': int)
    requires |content| == MAP_SIZE && 0 <= i < MAP_H
    requires diff == DiffOf(content, i * MAP_W)
    ensures buf' == buf + RowCells(content, i, MAP_W)
    ensures diff' == DiffOf(content, i * MAP_W + MAP_W)
  {
    buf', diff' := buf, diff;
    var k := i * MAP_W;  // the position of the `content` iterator
    for j := 0 to MAP_W
      invariant k == i * MAP_W + j
      invariant buf' == buf + RowCells(content, i, j)
      invariant diff' == DiffOf(content, k)
    {
      var c := content[k];
      k := k + 1;
      var (r, d) := FloorRepr(c);
      diff' := Max(d, diff');
      DiffStep(content, k - 1);
      RowCellsStep(content, i, j);
      buf' := buf' + [r];
    }
  }

  // ------------------------------------------------------------ the file

  /** What the script prints for one floor after its banner. */
  datatype FloorOut =
    | Hidden                                   // difficulty 5 or more: nothing
    | Shown(text: seq<char>, difficulty: int)

  /** Where the listing ends. */
  datatype Ending =
    | Trailing(rest: seq<byte>)   // the bytes after the last floor (printed if not empty)
    | Truncated                   // 'Unexpected end of file' on the next floor

  datatype Outcome =
    | HeaderRejected(error: Error)
    | Listed(header: Header, floors: seq<FloorOut>, ending: Ending)

  function FloorOutOf(content: seq<byte>): FloorOut
    requires |content| == MAP_SIZE
  {
    var diff := DiffOf(content, MAP_SIZE);
    if diff >= 5 then Hidden else Shown(Rendered(content, MAP_H), diff)
  }

  /** A floor is hidden exactly when it contains a dispenser (byte 8); a shown floor has difficulty 0..4. */
  lemma HiddenIffDispenser(content: seq<byte>)
    requires |content| == MAP_SIZE
    ensures FloorOutOf(content).Hidden? <==> exists k :: 0 <= k < MAP_SIZE && content[k] == 8
    ensures FloorOutOf(content).Shown? ==> 0 <= FloorOutOf(content).difficulty < 5
  {
    DiffOfMaximum(content, MAP_SIZE);
  }

  /** Floor `k` of the file: the `MAP_SIZE` bytes after the header and the `k` floors before it. */
  function FloorAt(file: seq<byte>, k: int): seq<byte>
    requires 0 <= k && HEADER_SIZE + (k + 1) * MAP_SIZE <= |file|
  {
    file[HEADER_SIZE + k * MAP_SIZE .. HEADER_SIZE + (k + 1) * MAP_SIZE]
  }

  /** The output of the first `n` floors, in file order. */
  function FloorOuts(file: seq<byte>, n: int): (r: seq<FloorOut>)
    requires 0 <= n && HEADER_SIZE + n * MAP_SIZE <= |file|
    ensures |r| == n
    ensures forall k :: 0 <= k < n ==> r[k] == FloorOutOf(FloorAt(file, k))
  {
    if n == 0 then [] else FloorOuts(file, n - 1) + [FloorOutOf(FloorAt(file, n - 1))]
  }

  /**
   * One iteration of the floor loop: read up to `MAP_SIZE` bytes at `pos`;
   * unless that is a whole floor (`Unexpected end of file`), decode it and
   * hide it when its difficulty is 5 or more.
   */
  method DumpFloor(file: seq<byte>, pos: int) returns (complete: bool, floor: FloorOut)
    requires 0 <= pos <= |file|
    ensures complete <==> pos + MAP_SIZE <= |file|
    ensures complete ==> floor == FloorOutOf(file[pos..pos + MAP_SIZE])
  {
    var content := file[pos .. if pos + MAP_SIZE <= |file| then pos + MAP_SIZE else |file|];
    if |content| != MAP_SIZE {
      return false, Hidden;
    }
    var text, diff := DecodeFloor(content);
    if diff >= 5 {
      return true, Hidden;
    }
    return true, Shown(text, diff);
  }

  /**
   * The floors and the ending of a listing for a floor count of `count`:
   * the outputs of the first `n` floors in file order, `n` being the count
   * (none when it is not positive) unless the file ends first, in which
   * case the listing is truncated; otherwise the bytes after floor `n`.
   */
  predicate ListingOf(file: seq<byte>, count: int, floors: seq<FloorOut>, ending: Ending)
  {
    var n := |floors|;
    && n <= Max(count, 0)
    && HEADER_SIZE + n * MAP_SIZE <= |file|
    && floors == FloorOuts(file, n)
    && (ending.Truncated? <==> n < count)
    && (ending.Truncated? ==> |file| < HEADER_SIZE + (n + 1) * MAP_SIZE)
    && (ending.Trailing? ==> ending.rest == file[HEADER_SIZE + n * MAP_SIZE..])
  }

  /**
   * The script, from the file's bytes to what it prints. A rejected header
   * stops it before anything else. Otherwise it lists the floors in order,
   * as many as the floor count says (none when it is not positive), and
   * stops at the first floor that is not complete; after the last floor
   * it reports the bytes left over.
   */
  method Dump(file: seq<byte>) returns (out: Outcome)
    ensures ReadHeader(file).Err? ==> out == HeaderRejected(ReadHeader(file).error)
    ensures ReadHeader(file).Ok? ==> out.Listed? && out.header == ReadHeader(file).value
    ensures out.Listed? ==> ListingOf(file, out.header.floorCount, out.floors, out.ending)
  {
    var header := ReadHeader(file);
    if header.Err? {
      return HeaderRejected(header.error);
    }
    var floors, ending := ListFloors(file, header.value.floorCount);
    out := Listed(header.value, floors, ending);
  }

  /** The floor loop `for idx in range(header.floorCount)` and the trailing bytes after it. */
  method ListFloors(file: seq<byte>, count: int) returns (floors: seq<FloorOut>, ending: Ending)
    requires HEADER_SIZE <= |file|
    ensures ListingOf(file, count, floors, ending)
  {
    floors := [];
    var pos := HEADER_SIZE;
    var idx := 0;
    while idx < count
      invariant 0 <= idx <= Max(count, 0)
      invariant HEADER_SIZE <= pos == HEADER_SIZE + idx * MAP_SIZE <= |file|
      invariant floors == FloorOuts(file, idx)
      decreases count - idx
    {
      var complete, floor := DumpFloor(file, pos);
      if !complete {
        ListingStops(file, count, floors, Truncated);
        return floors, Truncated;
      }
      assert file[pos..pos + MAP_SIZE] == FloorAt(file, idx);
      floors := floors + [floor];
      pos := pos + MAP_SIZE;
      idx := idx + 1;
    }
    ending := Trailing(file[pos..]);
    ListingStops(file, count, floors, ending);
  }

  /** The two ways the floor loop ends, in terms of `ListingOf`. */
  lemma ListingStops(file: seq<byte>, count: int, floors: seq<FloorOut>, ending: Ending)
    requires HEADER_SIZE + |floors| * MAP_SIZE <= |file| && floors == FloorOuts(file, |floors|)
    requires |floors| <= Max(count, 0)
    requires ending.Truncated? ==> |floors| < count && |file| < HEADER_SIZE + |floors| * MAP_SIZE + MAP_SIZE
    requires ending.Trailing? ==> |floors| >= count && ending.rest == file[HEADER_SIZE + |floors| * MAP_SIZE..]
    ensures ListingOf(file, count, floors, ending)
  {
  }
}
