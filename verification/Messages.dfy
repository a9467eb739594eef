/** Whole messages: xdr_to_msg and xdr_from_msg of xdrpp/marshal.h. */
module Messages {
  import opened Options
  import opened Bytes
  import opened Sequences
  import opened Xdr
  import opened Codec
  import opened RoundTrip
  import opened Canonical
  import opened Sizes
  import opened Put
  import opened Get
  import Framing

  datatype Failure = Thrown(error: Error) | BadMessageSize

  datatype Result<+T> = Ok(value: T) | Err(failure: Failure)

  /** The encodings of a list of arguments, one after the other. */
  function EncodeArgs(defs: seq<Type>, ts: seq<Type>, vs: seq<Value>): seq<Byte> {
    EncodeFrom(defs, Struct(ts), VSeq(vs), 0)
  }

  predicate ClosedArgs(defs: seq<Type>, ts: seq<Type>) {
    WellFormed(defs) && Closed(Struct(ts), |defs|)
  }

  predicate ShapedArgs(defs: seq<Type>, ts: seq<Type>, vs: seq<Value>) {
    PartsShaped(defs, Struct(ts), VSeq(vs))
  }

  predicate LiveArgs(defs: seq<Type>, ts: seq<Type>, vs: seq<Value>) {
    LiveFrom(defs, Struct(ts), VSeq(vs), 0)
  }

  function ArgsDepth(defs: seq<Type>, ts: seq<Type>, vs: seq<Value>): nat {
    DepthFrom(defs, Struct(ts), VSeq(vs), 0)
  }

  /** xdr_argpack_size. */
  method ArgpackSize(defs: seq<Type>, ts: seq<Type>, vs: seq<Value>, i: nat) returns (r: Option<nat>)
    requires ClosedArgs(defs, ts) && ShapedArgs(defs, ts, vs) && i <= |ts|
    ensures Measured(r, LiveFrom(defs, Struct(ts), VSeq(vs), i), |EncodeFrom(defs, Struct(ts), VSeq(vs), i)|)
    decreases |ts| - i
  {
    if i == |ts| {
      return Some(0);
    }
    assert Part(Struct(ts), 0, i) == ts[i];
    r := SerialSize(defs, ts[i], vs[i]);
    if r.None? {
      return;
    }
    var rest := ArgpackSize(defs, ts, vs, i + 1);
    r := if rest.None? then None else Some(r.value + rest.value);
  }

  /** message_t::alloc: the header is there, the body is not yet. */
  method Alloc(size: nat) returns (raw: array<Byte>)
    requires size < 0x8000_0000
    ensures fresh(raw) && raw.Length == 4 + size && raw[..4] == Be32(size + 0x8000_0000)
  {
    raw := new Byte[4 + size];
    var b := Be32(size + 0x8000_0000);
    raw[0], raw[1], raw[2], raw[3] := b[0], b[1], b[2], b[3];
  }

  lemma Filled(before: seq<Byte>, code: seq<Byte>)
    requires |before| == 4 + |code| && |code| < 0x8000_0000 && before[..4] == Be32(|code| + 0x8000_0000)
    ensures Written(before, 4, code) == Framing.Raw(code)
  {
  }

  /** xdr_to_msg: a raw message that the arguments fill exactly, so that the final
      assertion holds; it fails exactly for a union without a live arm or for too deep
      a nesting. */
  method ToMsg(defs: seq<Type>, ts: seq<Type>, vs: seq<Value>, limit: Word) returns (r: Result<seq<Byte>>)
    requires ClosedArgs(defs, ts) && ShapedArgs(defs, ts, vs)
    requires |EncodeArgs(defs, ts, vs)| < 0x8000_0000
    ensures r.Ok? <==> LiveArgs(defs, ts, vs) && ArgsDepth(defs, ts, vs) <= limit
    ensures r.Ok? ==> r.value == Framing.Raw(EncodeArgs(defs, ts, vs))
    ensures r.Err? ==> r.failure == Thrown(if LiveArgs(defs, ts, vs) then StackOverflow else BadDiscriminant)
  {
    var size := ArgpackSize(defs, ts, vs, 0);
    if size.None? {
      return Err(Thrown(BadDiscriminant));
    }
    EncodedPartsInWords(defs, Struct(ts), VSeq(vs), 0);
    r := Fill(defs, ts, vs, size.value, limit);
  }

  /** The encoding of all arguments behind the header, and the assertion that the buffer
      is full. */
  method PutArgs(defs: seq<Type>, ts: seq<Type>, vs: seq<Value>, raw: array<Byte>, limit: Word) returns (error: Option<Error>)
    requires ClosedArgs(defs, ts) && ShapedArgs(defs, ts, vs) && LiveArgs(defs, ts, vs)
    requires raw.Length == 4 + |EncodeArgs(defs, ts, vs)| && raw.Length % 4 == 0
    modifies raw
    ensures error == if ArgsDepth(defs, ts, vs) <= limit then None else Some(StackOverflow)
    ensures error.None? ==> raw[..] == Written(old(raw[..]), 4, EncodeArgs(defs, ts, vs))
  {
    var sink := new Sink(raw, 4, raw.Length, limit);
    error := sink.PutParts(defs, Struct(ts), VSeq(vs));
    if error.None? {
      assert sink.p == sink.e;
    }
  }

  /** What xdr_to_msg makes of a buffer from alloc. */
  method FillRaw(defs: seq<Type>, ts: seq<Type>, vs: seq<Value>, raw: array<Byte>, limit: Word) returns (r: Result<seq<Byte>>)
    requires ClosedArgs(defs, ts) && ShapedArgs(defs, ts, vs) && LiveArgs(defs, ts, vs)
    requires |EncodeArgs(defs, ts, vs)| < 0x8000_0000
    requires raw.Length == 4 + |EncodeArgs(defs, ts, vs)| && raw.Length % 4 == 0
    requires raw[..4] == Be32(|EncodeArgs(defs, ts, vs)| + 0x8000_0000)
    modifies raw
    ensures r == if ArgsDepth(defs, ts, vs) <= limit then Ok(Framing.Raw(EncodeArgs(defs, ts, vs))) else Err(Thrown(StackOverflow))
  {
    ghost var before := raw[..];
    assert before[..4] == raw[..4];
    var error := PutArgs(defs, ts, vs, raw, limit);
    Filled(before, EncodeArgs(defs, ts, vs));
    r := if error.None? then Ok(raw[..]) else Err(Thrown(error.value));
  }

  /** alloc, and the encoding of all arguments. */
  method Fill(defs: seq<Type>, ts: seq<Type>, vs: seq<Value>, size: nat, limit: Word) returns (r: Result<seq<Byte>>)
    requires ClosedArgs(defs, ts) && ShapedArgs(defs, ts, vs) && LiveArgs(defs, ts, vs)
    requires size == |EncodeArgs(defs, ts, vs)| < 0x8000_0000 && size % 4 == 0
    ensures r == if ArgsDepth(defs, ts, vs) <= limit then Ok(Framing.Raw(EncodeArgs(defs, ts, vs))) else Err(Thrown(StackOverflow))
  {
    var raw := Alloc(size);
    r := FillRaw(defs, ts, vs, raw, limit);
  }

  /** What xdr_from_msg makes of a message. */
  function Fetch(defs: seq<Type>, ts: seq<Type>, limit: nat, data: seq<Byte>): Result<seq<Value>>
    requires ClosedArgs(defs, ts)
  {
    if |data| % 4 != 0 then Err(BadMessageSize)
    else
      var o := DecodeParts(defs, LIBRARY, limit, Struct(ts), 0, 0, data);
      if o.Fail? then Err(Thrown(o.error))
      else if o.rest != [] then Err(BadMessageSize)
      else Ok(o.value)
  }

  /** xdr_from_msg: overwrites the arguments, whatever they were. */
  method FromMsg(defs: seq<Type>, ts: seq<Type>, dest: seq<Value>, limit: Word, data: seq<Byte>)
    returns (r: Result<seq<Value>>)
    requires ClosedArgs(defs, ts) && ShapedArgs(defs, ts, dest)
    ensures r == Fetch(defs, ts, limit, data)
  {
    if |data| % 4 != 0 {
      return Err(BadMessageSize);
    }
    var source := new Source(data, limit);
    assert source.Rest() == data;
    var error, vs := source.GetParts(defs, Struct(ts), 0, dest);
    if error.Some? {
      return Err(Thrown(error.value));
    }
    if source.p != |data| {
      return Err(BadMessageSize);
    }
    r := Ok(vs);
  }

  /** xdr_from_msg undoes xdr_to_msg on arguments within their bounds. */
  lemma FetchOfEncode(defs: seq<Type>, ts: seq<Type>, vs: seq<Value>, limit: nat)
    requires ClosedArgs(defs, ts) && ShapedArgs(defs, ts, vs) && LiveArgs(defs, ts, vs)
    ensures Fetch(defs, ts, limit, EncodeArgs(defs, ts, vs)) == Ok(vs) <==>
      ArgsDepth(defs, ts, vs) <= limit && FitsFrom(defs, LIBRARY, Struct(ts), VSeq(vs), 0)
  {
    var u, v := Struct(ts), VSeq(vs);
    EncodedPartsInWords(defs, u, v, 0);
    forall j | 0 <= j < |v.Parts()| ensures Sound(defs, Part(u, Head(u, v), j), v.Parts()[j]) {
    }
    DecodePartsOfEncode(defs, LIBRARY, limit, u, v, 0, []);
    assert EncodeFrom(defs, u, v, 0) + [] == EncodeFrom(defs, u, v, 0);
    assert From(v.Parts(), 0) == vs;
  }

  /** xdr_from_msg reads whole messages only: what it accepts takes up all of the data, is
      well-formed, within its bounds and the stack limit, and without bools it is exactly
      the encoding of what was read. */
  lemma {:induction false} FetchIsWhole(defs: seq<Type>, ts: seq<Type>, limit: nat, data: seq<Byte>)
    requires ClosedArgs(defs, ts) && Fetch(defs, ts, limit, data).Ok?
    ensures var vs := Fetch(defs, ts, limit, data).value;
      && ShapedArgs(defs, ts, vs) && LiveArgs(defs, ts, vs) && FitsFrom(defs, LIBRARY, Struct(ts), VSeq(vs), 0)
      && ArgsDepth(defs, ts, vs) <= limit && |EncodeArgs(defs, ts, vs)| == |data|
      && (DefsFree(Bools, defs) && Free(Bools, Struct(ts)) ==> EncodeArgs(defs, ts, vs) == data)
  {
    var u, vs := Struct(ts), Fetch(defs, ts, limit, data).value;
    var v, exact := VSeq(vs), DefsFree(Bools, defs) && Free(Bools, u);
    assert From(v.Parts(), 0) == vs;
    PartsAccepted(defs, LIBRARY, limit, exact, u, v, 0, data, []);
    assert AcceptedFrom(defs, LIBRARY, limit, exact, u, v, 0, data, []);
    assert EncodeFrom(defs, u, v, 0) + [] == EncodeFrom(defs, u, v, 0);
    forall j | 0 <= j < |v.Parts()|
      ensures Shaped(defs, Part(u, Head(u, v), j), v.Parts()[j]) && Live(defs, Part(u, Head(u, v), j), v.Parts()[j])
    {
      assert Sound(defs, Part(u, Head(u, v), j), v.Parts()[j]);
    }
  }
}
