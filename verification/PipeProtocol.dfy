/**
  * The framing of requests and responses on the named pipe.
  *
  * Numbers travel in the byte order of the host, little endian on the supported platform.
  */
module PipeProtocol {
  import opened Utf8
  import opened Wrappers

  const REQUEST_MAGIC: nat := 0x4C46_5250
  const RESPONSE_MAGIC: nat := 0x4C46_5253
  const PROTOCOL_VERSION: nat := 1
  const U32_SIZE: nat := 4
  const U64_SIZE: nat := 8

  type uint32 = x: nat | x < 0x1_0000_0000
  type uint64 = x: nat | x < 0x1_0000_0000_0000_0000

  datatype PipeMethod =
    | StartImport | ListBooks | GetBookDetails | ExportBook | MoveBookToTrash | GetImportJobSnapshot
    | GetImportJobResult | WaitImportJob | CancelImportJob | RemoveImportJob | ValidateImportSources

  datatype ResponseStatus = StatusOk | InvalidRequest | UnknownMethod | InternalError

  datatype Request = Request(requestId: uint64, callee: PipeMethod, payload: seq<byte>)
  datatype Response = Response(requestId: uint64, status: ResponseStatus, payload: seq<byte>, errorMessage: seq<byte>)

  datatype FramingError =
    | UnexpectedEnd | UnsupportedMagic | UnsupportedVersion | UnknownEnumValue | TrailingBytes | PayloadTooLarge

  /** The wire number of a method; eleven was retired and is skipped. */
  function MethodId(m: PipeMethod): uint32 {
    match m
    case StartImport => 1
    case ListBooks => 2
    case GetBookDetails => 3
    case ExportBook => 4
    case MoveBookToTrash => 5
    case GetImportJobSnapshot => 6
    case GetImportJobResult => 7
    case WaitImportJob => 8
    case CancelImportJob => 9
    case RemoveImportJob => 10
    case ValidateImportSources => 12
  }

  function MethodOfId(id: uint32): (m: Option<PipeMethod>)
    ensures forall x :: m == Some(x) <==> MethodId(x) == id
  {
    match id
    case 1 => Some(StartImport)
    case 2 => Some(ListBooks)
    case 3 => Some(GetBookDetails)
    case 4 => Some(ExportBook)
    case 5 => Some(MoveBookToTrash)
    case 6 => Some(GetImportJobSnapshot)
    case 7 => Some(GetImportJobResult)
    case 8 => Some(WaitImportJob)
    case 9 => Some(CancelImportJob)
    case 10 => Some(RemoveImportJob)
    case 12 => Some(ValidateImportSources)
    case _ => None
  }

  function StatusId(s: ResponseStatus): uint32 {
    match s
    case StatusOk => 0
    case InvalidRequest => 1
    case UnknownMethod => 2
    case InternalError => 3
  }

  function StatusOfId(id: uint32): (s: Option<ResponseStatus>)
    ensures forall x :: s == Some(x) <==> StatusId(x) == id
  {
    match id
    case 0 => Some(StatusOk)
    case 1 => Some(InvalidRequest)
    case 2 => Some(UnknownMethod)
    case 3 => Some(InternalError)
    case _ => None
  }

  // ---------------------------------------------------------------------------------------
  // Little-endian numbers
  // ---------------------------------------------------------------------------------------

  function Power256(width: nat): (p: nat)
    ensures p > 0
  {
    if width == 0 then 1 else 0x100 * Power256(width - 1)
  }

  function LittleEndian(value: nat, width: nat): (bytes: seq<byte>)
    ensures |bytes| == width
  {
    if width == 0 then [] else [value % 0x100] + LittleEndian(value / 0x100, width - 1)
  }

  function FromLittleEndian(bytes: seq<byte>): nat {
    if bytes == [] then 0 else bytes[0] + 0x100 * FromLittleEndian(bytes[1..])
  }

  lemma {:induction false} FromInvertsLittleEndian(value: nat, width: nat)
    requires value < Power256(width)
    ensures FromLittleEndian(LittleEndian(value, width)) == value
  {
    if width > 0 {
      FromInvertsLittleEndian(value / 0x100, width - 1);
      assert LittleEndian(value, width)[1..] == LittleEndian(value / 0x100, width - 1);
    }
  }

  lemma {:induction false} LittleEndianInvertsFrom(bytes: seq<byte>)
    ensures FromLittleEndian(bytes) < Power256(|bytes|)
    ensures LittleEndian(FromLittleEndian(bytes), |bytes|) == bytes
  {
    if bytes != [] {
      LittleEndianInvertsFrom(bytes[1..]);
      assert bytes == [bytes[0]] + bytes[1..];
    }
  }

  lemma Widths()
    ensures Power256(U32_SIZE) == 0x1_0000_0000 && Power256(U64_SIZE) == 0x1_0000_0000_0000_0000
  {
  }

  function U32(value: uint32): seq<byte> { LittleEndian(value, U32_SIZE) }
  function U64(value: uint64): seq<byte> { LittleEndian(value, U64_SIZE) }
  function Sized(value: seq<byte>): seq<byte>
    requires |value| < 0x1_0000_0000
  {
    U32(|value|) + value
  }

  // ---------------------------------------------------------------------------------------
  // The byte layout of an envelope
  // ---------------------------------------------------------------------------------------

  predicate Fits(payload: seq<byte>) {
    |payload| < 0x1_0000_0000
  }

  function RequestBytes(r: Request): seq<byte>
    requires Fits(r.payload)
  {
    U32(REQUEST_MAGIC) + U32(PROTOCOL_VERSION) + U64(r.requestId) + U32(MethodId(r.callee)) + Sized(r.payload)
  }

  function ResponseBytes(r: Response): seq<byte>
    requires Fits(r.payload) && Fits(r.errorMessage)
  {
    U32(RESPONSE_MAGIC) + U32(PROTOCOL_VERSION) + U64(r.requestId) + U32(StatusId(r.status))
    + Sized(r.payload) + Sized(r.errorMessage)
  }

  method AppendString(bytes: seq<byte>, value: seq<byte>) returns (r: Result<seq<byte>, FramingError>)
    ensures r == if Fits(value) then Ok(bytes + Sized(value)) else Err(PayloadTooLarge)
  {
    if |value| > 0xFFFF_FFFF {
      return Err(PayloadTooLarge);
    }
    var grown := bytes + U32(|value|);
    if value != [] {
      grown := grown + value;
    }
    assert grown == bytes + Sized(value);
    return Ok(grown);
  }

  method SerializeRequestEnvelope(envelope: Request) returns (r: Result<seq<byte>, FramingError>)
    ensures r == if Fits(envelope.payload) then Ok(RequestBytes(envelope)) else Err(PayloadTooLarge)
  {
    var bytes := U32(REQUEST_MAGIC);
    bytes := bytes + U32(PROTOCOL_VERSION);
    bytes := bytes + U64(envelope.requestId);
    bytes := bytes + U32(MethodId(envelope.callee));
    r := AppendString(bytes, envelope.payload);
  }

  method SerializeResponseEnvelope(envelope: Response) returns (r: Result<seq<byte>, FramingError>)
    ensures r == if Fits(envelope.payload) && Fits(envelope.errorMessage) then Ok(ResponseBytes(envelope))
                 else Err(PayloadTooLarge)
  {
    var bytes := U32(RESPONSE_MAGIC);
    bytes := bytes + U32(PROTOCOL_VERSION);
    bytes := bytes + U64(envelope.requestId);
    bytes := bytes + U32(StatusId(envelope.status));
    r := AppendString(bytes, envelope.payload);
    if r.Ok? {
      r := AppendString(r.value, envelope.errorMessage);
    }
  }

  // ---------------------------------------------------------------------------------------
  // Reading: what a parse of a message, or of the rest of one, yields
  // ---------------------------------------------------------------------------------------

  datatype Field<+T> = Field(value: T, rest: seq<byte>)

  function SplitU32(s: seq<byte>): (f: Option<Field<uint32>>)
    ensures f.Some? <==> |s| >= U32_SIZE
    ensures f.Some? ==> s == U32(f.value.value) + f.value.rest
  {
    if |s| < U32_SIZE then None
    else
      LittleEndianInvertsFrom(s[..U32_SIZE]);
      Widths();
      Some(Field(FromLittleEndian(s[..U32_SIZE]), s[U32_SIZE..]))
  }

  function SplitU64(s: seq<byte>): (f: Option<Field<uint64>>)
    ensures f.Some? <==> |s| >= U64_SIZE
    ensures f.Some? ==> s == U64(f.value.value) + f.value.rest
  {
    if |s| < U64_SIZE then None
    else
      LittleEndianInvertsFrom(s[..U64_SIZE]);
      Widths();
      Some(Field(FromLittleEndian(s[..U64_SIZE]), s[U64_SIZE..]))
  }

  function SplitString(s: seq<byte>): (f: Option<Field<seq<byte>>>)
    ensures f.Some? ==> Fits(f.value.value) && s == Sized(f.value.value) + f.value.rest
  {
    var length := SplitU32(s);
    if length.None? || |length.value.rest| < length.value.value then None
    else
      var n, rest := length.value.value, length.value.rest;
      assert rest == rest[..n] + rest[n..];
      Some(Field(rest[..n], rest[n..]))
  }

  lemma SplitInvertsU32(v: uint32, rest: seq<byte>)
    ensures SplitU32(U32(v) + rest) == Some(Field(v, rest))
  {
    Widths();
    FromInvertsLittleEndian(v, U32_SIZE);
    assert (U32(v) + rest)[..U32_SIZE] == U32(v) && (U32(v) + rest)[U32_SIZE..] == rest;
  }

  lemma SplitInvertsU64(v: uint64, rest: seq<byte>)
    ensures SplitU64(U64(v) + rest) == Some(Field(v, rest))
  {
    Widths();
    FromInvertsLittleEndian(v, U64_SIZE);
    assert (U64(v) + rest)[..U64_SIZE] == U64(v) && (U64(v) + rest)[U64_SIZE..] == rest;
  }

  lemma SplitInvertsSized(v: seq<byte>, rest: seq<byte>)
    requires Fits(v)
    ensures SplitString(Sized(v) + rest) == Some(Field(v, rest))
  {
    SplitInvertsU32(|v|, v + rest);
    assert Sized(v) + rest == U32(|v|) + (v + rest);
    assert (v + rest)[..|v|] == v && (v + rest)[|v|..] == rest;
  }

  /** Magic, version, id and the enum number, which both envelopes start with. */
  datatype Header = Header(requestId: uint64, enumValue: uint32)

  function HeaderBytes(magic: uint32, h: Header): seq<byte> {
    U32(magic) + U32(PROTOCOL_VERSION) + U64(h.requestId) + U32(h.enumValue)
  }

  function ParseHeader(magic: uint32, s: seq<byte>): (r: Result<Field<Header>, FramingError>)
    ensures r.Ok? ==> s == HeaderBytes(magic, r.value.value) + r.value.rest
  {
    var m := SplitU32(s);
    if m.None? then Err(UnexpectedEnd)
    else if m.value.value != magic then Err(UnsupportedMagic)
    else
      var v := SplitU32(m.value.rest);
      if v.None? then Err(UnexpectedEnd)
      else if v.value.value != PROTOCOL_VERSION then Err(UnsupportedVersion)
      else
        var id := SplitU64(v.value.rest);
        if id.None? then Err(UnexpectedEnd)
        else
          var e := SplitU32(id.value.rest);
          if e.None? then Err(UnexpectedEnd)
          else Ok(Field(Header(id.value.value, e.value.value), e.value.rest))
  }

  lemma HeaderFields(magic: uint32, h: Header, rest: seq<byte>)
    ensures HeaderBytes(magic, h) + rest == U32(magic) + (U32(PROTOCOL_VERSION) + (U64(h.requestId) + (U32(h.enumValue) + rest)))
  {
    Regrouping(U32(magic), U32(PROTOCOL_VERSION), U64(h.requestId), U32(h.enumValue), rest);
  }

  lemma Regrouping(a: seq<byte>, b: seq<byte>, c: seq<byte>, d: seq<byte>, e: seq<byte>)
    ensures a + b + c + d + e == a + (b + (c + (d + e)))
  {
  }

  lemma ParseInvertsHeader(magic: uint32, h: Header, rest: seq<byte>)
    ensures ParseHeader(magic, HeaderBytes(magic, h) + rest) == Ok(Field(h, rest))
  {
    var r3 := U32(h.enumValue) + rest;
    var r2 := U64(h.requestId) + r3;
    var r1 := U32(PROTOCOL_VERSION) + r2;
    SplitInvertsU32(magic, r1);
    SplitInvertsU32(PROTOCOL_VERSION, r2);
    SplitInvertsU64(h.requestId, r3);
    SplitInvertsU32(h.enumValue, rest);
    HeaderFields(magic, h, rest);
  }

  function RequestAfter(h: Header, rest: seq<byte>): Result<Request, FramingError> {
    match MethodOfId(h.enumValue)
    case None => Err(UnknownEnumValue)
    case Some(m) =>
      var p := SplitString(rest);
      if p.None? then Err(UnexpectedEnd)
      else if p.value.rest != [] then Err(TrailingBytes)
      else Ok(Request(h.requestId, m, p.value.value))
  }

  function ParseRequest(s: seq<byte>): Result<Request, FramingError> {
    match ParseHeader(REQUEST_MAGIC, s)
    case Err(e) => Err(e)
    case Ok(f) => RequestAfter(f.value, f.rest)
  }

  function ResponseAfter(h: Header, rest: seq<byte>): Result<Response, FramingError> {
    match StatusOfId(h.enumValue)
    case None => Err(UnknownEnumValue)
    case Some(status) =>
      var p := SplitString(rest);
      if p.None? then Err(UnexpectedEnd)
      else
        var e := SplitString(p.value.rest);
        if e.None? then Err(UnexpectedEnd)
        else if e.value.rest != [] then Err(TrailingBytes)
        else Ok(Response(h.requestId, status, p.value.value, e.value.value))
  }

  function ParseResponse(s: seq<byte>): Result<Response, FramingError> {
    match ParseHeader(RESPONSE_MAGIC, s)
    case Err(e) => Err(e)
    case Ok(f) => ResponseAfter(f.value, f.rest)
  }

  /**
    * The request format is unambiguous: a byte string parses to an envelope exactly when it is
    * the serialization of that envelope.
    */
  lemma RequestParsesIffSerialized(s: seq<byte>, r: Request)
    ensures ParseRequest(s) == Ok(r) <==> Fits(r.payload) && s == RequestBytes(r)
  {
    var h := Header(r.requestId, MethodId(r.callee));
    if ParseRequest(s) == Ok(r) {
      var f := ParseHeader(REQUEST_MAGIC, s).value;
      assert f.value == h && f.rest == Sized(r.payload) + [];
    }
    if Fits(r.payload) && s == RequestBytes(r) {
      ParseInvertsHeader(REQUEST_MAGIC, h, Sized(r.payload));
      SplitInvertsSized(r.payload, []);
      assert Sized(r.payload) + [] == Sized(r.payload);
    }
  }

  lemma ParsedResponseIsSerialized(s: seq<byte>, r: Response)
    requires ParseResponse(s) == Ok(r)
    ensures Fits(r.payload) && Fits(r.errorMessage) && s == ResponseBytes(r)
  {
    var header := ParseHeader(RESPONSE_MAGIC, s).value;
    var second := SplitString(header.rest).value.rest;
    assert second == Sized(r.errorMessage) + [] == Sized(r.errorMessage);
    assert header.rest == Sized(r.payload) + second;
    assert header.value == Header(r.requestId, StatusId(r.status));
  }

  lemma SerializedResponseParses(r: Response)
    requires Fits(r.payload) && Fits(r.errorMessage)
    ensures ParseResponse(ResponseBytes(r)) == Ok(r)
  {
    var h := Header(r.requestId, StatusId(r.status));
    var strings := Sized(r.payload) + Sized(r.errorMessage);
    ParseInvertsHeader(RESPONSE_MAGIC, h, strings);
    assert ResponseBytes(r) == HeaderBytes(RESPONSE_MAGIC, h) + strings;
    SplitInvertsSized(r.payload, Sized(r.errorMessage));
    SplitInvertsSized(r.errorMessage, []);
    assert Sized(r.errorMessage) + [] == Sized(r.errorMessage);
  }

  /** The same for responses, whose second string ends the message. */
  lemma ResponseParsesIffSerialized(s: seq<byte>, r: Response)
    ensures ParseResponse(s) == Ok(r) <==> Fits(r.payload) && Fits(r.errorMessage) && s == ResponseBytes(r)
  {
    if ParseResponse(s) == Ok(r) {
      ParsedResponseIsSerialized(s, r);
    }
    if Fits(r.payload) && Fits(r.errorMessage) {
      SerializedResponseParses(r);
    }
  }

  /** No message is both a request and a response. */
  lemma EnvelopeKindsAreDisjoint(s: seq<byte>)
    ensures ParseRequest(s).Err? || ParseResponse(s).Err?
  {
  }

  // ---------------------------------------------------------------------------------------
  // The bytes of the format
  // ---------------------------------------------------------------------------------------

  /** The methods in the order of their numbers, from one on; the last one has the number twelve. */
  const METHODS: seq<PipeMethod> :=
    [StartImport, ListBooks, GetBookDetails, ExportBook, MoveBookToTrash, GetImportJobSnapshot,
     GetImportJobResult, WaitImportJob, CancelImportJob, RemoveImportJob]

  /** The statuses in the order of their numbers, from zero on. */
  const STATUSES: seq<ResponseStatus> := [StatusOk, InvalidRequest, UnknownMethod, InternalError]

  function MethodNumbered(b: byte): Option<PipeMethod> {
    if 1 <= b <= 10 then Some(METHODS[b - 1]) else if b == 12 then Some(ValidateImportSources) else None
  }

  function StatusNumbered(b: byte): Option<ResponseStatus> {
    if b < 4 then Some(STATUSES[b]) else None
  }

  /** The number in the four bytes from a place on, the lowest byte first. */
  function NumberAt(s: seq<byte>, at: nat): nat
    requires at + 4 <= |s|
  {
    var a: int, b: int, c: int, d: int := s[at], s[at + 1], s[at + 2], s[at + 3];
    a + 0x100 * b + 0x1_0000 * c + 0x100_0000 * d
  }

  lemma FourBytes(b: seq<byte>)
    requires |b| == 4
    ensures FromLittleEndian(b) == NumberAt(b, 0)
  {
    var x: int, y: int, z: int := b[1], b[2], b[3];
    assert b[1..][1..] == b[2..] && b[2..][1..] == b[3..] && b[3..][1..] == [];
    assert FromLittleEndian(b[3..]) == z;
    assert FromLittleEndian(b[2..]) == y + 0x100 * z;
    assert FromLittleEndian(b[1..]) == x + 0x100 * y + 0x1_0000 * z;
  }

  lemma SplitMeaning(s: seq<byte>)
    requires |s| >= 4
    ensures SplitU32(s) == Some(Field(NumberAt(s, 0), s[4..]))
  {
    FourBytes(s[..4]);
  }

  lemma SplitLongMeaning(s: seq<byte>)
    requires |s| >= 8
    ensures SplitU64(s) == Some(Field(NumberAt(s, 0) + 0x1_0000_0000 * NumberAt(s, 4), s[8..]))
  {
    var b := s[..8];
    FourBytes(b[4..]);
    var a: int, b': int, c: int, d: int := b[0], b[1], b[2], b[3];
    assert b[1..][1..] == b[2..] && b[2..][1..] == b[3..] && b[3..][1..] == b[4..];
    assert NumberAt(b[4..], 0) == NumberAt(s, 4);
    assert FromLittleEndian(b[3..]) == d + 0x100 * NumberAt(s, 4);
    assert FromLittleEndian(b[2..]) == c + 0x100 * d + 0x1_0000 * NumberAt(s, 4);
    assert FromLittleEndian(b[1..]) == b' + 0x100 * c + 0x1_0000 * d + 0x100_0000 * NumberAt(s, 4);
  }

  /** The error for the first 16 bytes and the number after them; the first thing wrong is reported. */
  function HeaderError(s: seq<byte>, mark: byte): Option<FramingError> {
    if |s| < 4 then Some(UnexpectedEnd)
    else if s[..4] != [mark, 0x52, 0x46, 0x4C] then Some(UnsupportedMagic)
    else if |s| < 8 then Some(UnexpectedEnd)
    else if s[4..8] != [1, 0, 0, 0] then Some(UnsupportedVersion)
    else if |s| < 20 then Some(UnexpectedEnd)
    else None
  }

  /** `at` is where a sized string begins that ends the message. */
  function TailError(s: seq<byte>, at: nat): Option<FramingError> {
    if |s| < at + 4 || |s| < at + 4 + NumberAt(s, at) then Some(UnexpectedEnd)
    else if |s| > at + 4 + NumberAt(s, at) then Some(TrailingBytes)
    else None
  }

  function RequestTailError(s: seq<byte>): Option<FramingError>
    requires |s| >= 20
  {
    if s[17..20] != [0, 0, 0] || MethodNumbered(s[16]).None? then Some(UnknownEnumValue) else TailError(s, 20)
  }

  function ResponseTailError(s: seq<byte>): Option<FramingError>
    requires |s| >= 20
  {
    if s[17..20] != [0, 0, 0] || StatusNumbered(s[16]).None? then Some(UnknownEnumValue)
    else if |s| < 24 || |s| < 24 + NumberAt(s, 20) then Some(UnexpectedEnd)
    else TailError(s, 24 + NumberAt(s, 20))
  }

  /** What is wrong with the bytes of a request, if anything. */
  function RequestError(s: seq<byte>): Option<FramingError> {
    if HeaderError(s, 0x50).Some? then HeaderError(s, 0x50) else RequestTailError(s)
  }

  function ResponseError(s: seq<byte>): Option<FramingError> {
    if HeaderError(s, 0x53).Some? then HeaderError(s, 0x53) else ResponseTailError(s)
  }

  lemma NumberIs(s: seq<byte>, at: nat, a: byte, b: byte, c: byte, d: byte)
    requires at + 4 <= |s|
    ensures s[at..at + 4] == [a, b, c, d] <==> NumberAt(s, at) == NumberAt([a, b, c, d], 0)
  {
    if NumberAt(s, at) == NumberAt([a, b, c, d], 0) {
      assert s[at] == a && s[at + 1] == b && s[at + 2] == c && s[at + 3] == d;
    }
  }

  lemma SmallNumberIs(s: seq<byte>, at: nat)
    requires at + 4 <= |s|
    ensures s[at + 1..at + 4] == [0, 0, 0] <==> NumberAt(s, at) == s[at]
    ensures s[at + 1..at + 4] != [0, 0, 0] ==> NumberAt(s, at) >= 0x100
  {
    NumberIs(s, at, s[at], 0, 0, 0);
    assert s[at..at + 4] == [s[at]] + s[at + 1..at + 4];
    assert [s[at], 0, 0, 0] == [s[at]] + [0, 0, 0];
    assert s[at + 1..at + 4] == s[at..at + 4][1..];
  }

  lemma HeaderMeaning(s: seq<byte>, mark: byte)
    ensures match ParseHeader(mark + 0x4C46_5200, s)
            case Err(e) => HeaderError(s, mark) == Some(e)
            case Ok(f) =>
              && HeaderError(s, mark).None? && f.rest == s[20..] && f.value.enumValue == NumberAt(s, 16)
              && f.value.requestId == NumberAt(s, 8) + 0x1_0000_0000 * NumberAt(s, 12)
  {
    if |s| >= 4 {
      SplitMeaning(s);
      NumberIs(s, 0, mark, 0x52, 0x46, 0x4C);
    }
    if |s| >= 8 {
      SplitMeaning(s[4..]);
      NumberIs(s, 4, 1, 0, 0, 0);
      assert s[4..][4..] == s[8..] && NumberAt(s[4..], 0) == NumberAt(s, 4);
    }
    if |s| >= 16 {
      SplitLongMeaning(s[8..]);
      assert s[8..][8..] == s[16..] && NumberAt(s[8..], 0) == NumberAt(s, 8) && NumberAt(s[8..], 4) == NumberAt(s, 12);
    }
    if |s| >= 20 {
      SplitMeaning(s[16..]);
      assert s[16..][4..] == s[20..] && NumberAt(s[16..], 0) == NumberAt(s, 16);
    }
  }

  lemma StringMeaning(s: seq<byte>, at: nat)
    requires at <= |s|
    ensures SplitString(s[at..]).None? <==> |s| < at + 4 || |s| < at + 4 + NumberAt(s, at)
    ensures SplitString(s[at..]).Some? ==>
              SplitString(s[at..]) == Some(Field(s[at + 4..at + 4 + NumberAt(s, at)], s[at + 4 + NumberAt(s, at)..]))
  {
    if |s| >= at + 4 {
      SplitMeaning(s[at..]);
      assert s[at..][4..] == s[at + 4..] && NumberAt(s[at..], 0) == NumberAt(s, at);
      if |s| >= at + 4 + NumberAt(s, at) {
        assert s[at + 4..][..NumberAt(s, at)] == s[at + 4..at + 4 + NumberAt(s, at)];
        assert s[at + 4..][NumberAt(s, at)..] == s[at + 4 + NumberAt(s, at)..];
      }
    }
  }

  lemma EnumMeaning(s: seq<byte>)
    requires |s| >= 20
    ensures MethodOfId(NumberAt(s, 16)) == if s[17..20] == [0, 0, 0] then MethodNumbered(s[16]) else None
    ensures StatusOfId(NumberAt(s, 16)) == if s[17..20] == [0, 0, 0] then StatusNumbered(s[16]) else None
  {
    SmallNumberIs(s, 16);
  }

  /** The string that ends a request. */
  lemma LastStringMeaning(s: seq<byte>)
    requires |s| >= 20
    ensures SplitString(s[20..]).None? <==> TailError(s, 20) == Some(UnexpectedEnd)
    ensures SplitString(s[20..]).Some? ==>
              var p := SplitString(s[20..]).value;
              (p.rest != [] <==> TailError(s, 20) == Some(TrailingBytes)) && (p.rest == [] ==> p.value == s[24..])
  {
    StringMeaning(s, 20);
  }

  lemma RequestTailMeaning(s: seq<byte>, h: Header)
    requires |s| >= 20 && h.enumValue == NumberAt(s, 16)
    ensures match RequestAfter(h, s[20..])
            case Err(e) => RequestTailError(s) == Some(e)
            case Ok(r) =>
              && RequestTailError(s).None? && r.requestId == h.requestId
              && MethodNumbered(s[16]) == Some(r.callee) && r.payload == s[24..]
  {
    EnumMeaning(s);
    LastStringMeaning(s);
  }

  /** Which bytes are refused as a request, with which error, and where the fields of the others are. */
  lemma RequestMeaning(s: seq<byte>)
    ensures match ParseRequest(s)
            case Err(e) => RequestError(s) == Some(e)
            case Ok(r) =>
              && RequestError(s).None? && |s| >= 24
              && r.requestId == NumberAt(s, 8) + 0x1_0000_0000 * NumberAt(s, 12)
              && MethodNumbered(s[16]) == Some(r.callee) && r.payload == s[24..]
  {
    HeaderMeaning(s, 0x50);
    if HeaderError(s, 0x50).None? {
      RequestTailMeaning(s, ParseHeader(REQUEST_MAGIC, s).value.value);
    }
  }

  /** The two strings of a response, as the parser takes them from what follows the header. */
  lemma StringsMeaning(s: seq<byte>)
    requires |s| >= 20
    ensures SplitString(s[20..]).None? <==> |s| < 24 || |s| < 24 + NumberAt(s, 20)
    ensures SplitString(s[20..]).Some? ==>
              var first, at := SplitString(s[20..]).value, 24 + NumberAt(s, 20);
              var second := SplitString(first.rest);
              && first.value == s[24..at]
              && (second.None? <==> TailError(s, at) == Some(UnexpectedEnd))
              && (second.Some? ==> (second.value.rest != [] <==> TailError(s, at) == Some(TrailingBytes)))
              && (second.Some? && second.value.rest == [] ==> second.value.value == s[at + 4..])
  {
    StringMeaning(s, 20);
    if |s| >= 24 && |s| >= 24 + NumberAt(s, 20) {
      StringMeaning(s, 24 + NumberAt(s, 20));
    }
  }

  lemma ResponseTailMeaning(s: seq<byte>, h: Header)
    requires |s| >= 20 && h.enumValue == NumberAt(s, 16)
    ensures match ResponseAfter(h, s[20..])
            case Err(e) => ResponseTailError(s) == Some(e)
            case Ok(r) =>
              && ResponseTailError(s).None? && r.requestId == h.requestId && StatusNumbered(s[16]) == Some(r.status)
              && r.payload == s[24..24 + NumberAt(s, 20)] && r.errorMessage == s[28 + NumberAt(s, 20)..]
  {
    EnumMeaning(s);
    StringsMeaning(s);
  }

  /** The same for responses, which have two strings. */
  lemma ResponseMeaning(s: seq<byte>)
    ensures match ParseResponse(s)
            case Err(e) => ResponseError(s) == Some(e)
            case Ok(r) =>
              && ResponseError(s).None? && |s| >= 28 + NumberAt(s, 20)
              && r.requestId == NumberAt(s, 8) + 0x1_0000_0000 * NumberAt(s, 12) && StatusNumbered(s[16]) == Some(r.status)
              && r.payload == s[24..24 + NumberAt(s, 20)] && r.errorMessage == s[28 + NumberAt(s, 20)..]
  {
    HeaderMeaning(s, 0x53);
    if HeaderError(s, 0x53).None? {
      ResponseTailMeaning(s, ParseHeader(RESPONSE_MAGIC, s).value.value);
    }
  }

  // ---------------------------------------------------------------------------------------
  // The readers, which advance an offset instead of cutting the message
  // ---------------------------------------------------------------------------------------

  method ReadU32(bytes: seq<byte>, offset: nat) returns (value: Option<uint32>, next: nat)
    requires offset <= |bytes|
    ensures next <= |bytes|
    ensures value.None? <==> SplitU32(bytes[offset..]).None?
    ensures value.Some? ==> SplitU32(bytes[offset..]) == Some(Field(value.value, bytes[next..]))
  {
    if offset + U32_SIZE > |bytes| {
      return None, offset;
    }
    next := offset + U32_SIZE;
    var raw := bytes[offset..next];
    assert raw == bytes[offset..][..U32_SIZE] && bytes[next..] == bytes[offset..][U32_SIZE..];
    LittleEndianInvertsFrom(raw);
    Widths();
    value := Some(FromLittleEndian(raw));
  }

  method ReadU64(bytes: seq<byte>, offset: nat) returns (value: Option<uint64>, next: nat)
    requires offset <= |bytes|
    ensures next <= |bytes|
    ensures value.None? <==> SplitU64(bytes[offset..]).None?
    ensures value.Some? ==> SplitU64(bytes[offset..]) == Some(Field(value.value, bytes[next..]))
  {
    if offset + U64_SIZE > |bytes| {
      return None, offset;
    }
    next := offset + U64_SIZE;
    var raw := bytes[offset..next];
    assert raw == bytes[offset..][..U64_SIZE] && bytes[next..] == bytes[offset..][U64_SIZE..];
    LittleEndianInvertsFrom(raw);
    Widths();
    value := Some(FromLittleEndian(raw));
  }

  method ReadString(bytes: seq<byte>, offset: nat) returns (value: Option<seq<byte>>, next: nat)
    requires offset <= |bytes|
    ensures next <= |bytes|
    ensures value.None? <==> SplitString(bytes[offset..]).None?
    ensures value.Some? ==> SplitString(bytes[offset..]) == Some(Field(value.value, bytes[next..]))
  {
    var length, start := ReadU32(bytes, offset);
    if length.None? || start + length.value > |bytes| {
      return None, offset;
    }
    next := start + length.value;
    assert bytes[start..next] == bytes[start..][..length.value];
    assert bytes[next..] == bytes[start..][length.value..];
    value := Some(bytes[start..next]);
  }

  method DeserializeRequestEnvelope(bytes: seq<byte>) returns (r: Result<Request, FramingError>)
    ensures r == ParseRequest(bytes)
  {
    assert bytes[0..] == bytes;
    var magic, offset := ReadU32(bytes, 0);
    if magic.None? { return Err(UnexpectedEnd); }
    if magic.value != REQUEST_MAGIC { return Err(UnsupportedMagic); }
    var version;
    version, offset := ReadU32(bytes, offset);
    if version.None? { return Err(UnexpectedEnd); }
    if version.value != PROTOCOL_VERSION { return Err(UnsupportedVersion); }
    var requestId;
    requestId, offset := ReadU64(bytes, offset);
    if requestId.None? { return Err(UnexpectedEnd); }
    var callee;
    callee, offset := ReadU32(bytes, offset);
    if callee.None? { return Err(UnexpectedEnd); }
    if MethodOfId(callee.value).None? { return Err(UnknownEnumValue); }
    var payload;
    payload, offset := ReadString(bytes, offset);
    if payload.None? { return Err(UnexpectedEnd); }
    if offset != |bytes| { return Err(TrailingBytes); }
    return Ok(Request(requestId.value, MethodOfId(callee.value).value, payload.value));
  }

  method DeserializeResponseEnvelope(bytes: seq<byte>) returns (r: Result<Response, FramingError>)
    ensures r == ParseResponse(bytes)
  {
    assert bytes[0..] == bytes;
    var magic, offset := ReadU32(bytes, 0);
    if magic.None? { return Err(UnexpectedEnd); }
    if magic.value != RESPONSE_MAGIC { return Err(UnsupportedMagic); }
    var version;
    version, offset := ReadU32(bytes, offset);
    if version.None? { return Err(UnexpectedEnd); }
    if version.value != PROTOCOL_VERSION { return Err(UnsupportedVersion); }
    var requestId;
    requestId, offset := ReadU64(bytes, offset);
    if requestId.None? { return Err(UnexpectedEnd); }
    var status;
    status, offset := ReadU32(bytes, offset);
    if status.None? { return Err(UnexpectedEnd); }
    if StatusOfId(status.value).None? { return Err(UnknownEnumValue); }
    var payload, errorMessage;
    payload, offset := ReadString(bytes, offset);
    if payload.None? { return Err(UnexpectedEnd); }
    errorMessage, offset := ReadString(bytes, offset);
    if errorMessage.None? { return Err(UnexpectedEnd); }
    if offset != |bytes| { return Err(TrailingBytes); }
    return Ok(Response(requestId.value, StatusOfId(status.value).value, payload.value, errorMessage.value));
  }
}
