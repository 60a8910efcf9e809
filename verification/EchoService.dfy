/** The echo OS service (TrEE/OSService/SampleOSService.c) and the secure service composed from it
    (TrEE/Miniport/TestService.c). */
module EchoService {
  import opened Words

  datatype Status = Success | BufferOverflow | InvalidParameter | InsufficientResources

  datatype Function = Echo | Repeat | Reverse | Other

  function Reversed(s: seq<byte>): (r: seq<byte>)
    ensures |r| == |s|
  {
    seq<byte>(|s|, i requires 0 <= i < |s| => s[|s| - 1 - i])
  }

  /** `k` copies of `s`. */
  function Copies(s: seq<byte>, k: nat): (r: seq<byte>)
    ensures |r| == Start(k, |s|)
  {
    if k == 0 then [] else Copies(s, k - 1) + s
  }

  /** The output buffer with its front replaced. */
  function Front(data: seq<byte>, out: seq<byte>): seq<byte>
    requires |data| <= |out|
  {
    data + out[|data|..]
  }

  /** Whole copies that fit: floor(room / size). */
  function Fitting(room: nat, size: nat): nat
    requires 0 < size
  {
    if room < size then 0 else 1 + Fitting(room - size, size)
  }

  lemma {:induction false} FittingIsQuotient(room: nat, size: nat)
    requires 0 < size
    ensures Fitting(room, size) == room / size
    ensures Start(Fitting(room, size), size) <= room < Start(Fitting(room, size), size) + size
  {
    if room >= size {
      FittingIsQuotient(room - size, size);
    }
    StartIsProduct(Fitting(room, size), size);
    var k := Fitting(room, size);
    RemainderIsUnique(room, size, k, room - k * size);
  }

  /** The output buffer after as many whole copies of `s` as fit into `length` bytes. */
  function Repeated(s: seq<byte>, length: nat, out: seq<byte>): (r: seq<byte>)
    requires s != [] && length <= |out|
    ensures |r| == |out|
  {
    FittingIsQuotient(length, |s|);
    Front(Copies(s, length / |s|), out)
  }

  /** The guard of the repeat loop fails after at most `passes` passes. */
  ghost predicate EndsWithin(room: nat, size: nat, passes: nat)
    decreases passes
  {
    room < size || (passes > 0 && EndsWithin(room - size, size, passes - 1))
  }

  lemma {:induction false} EmptyInputGoesOn(room: nat, passes: nat)
    ensures !EndsWithin(room, 0, passes)
    decreases passes
  {
    if passes > 0 {
      EmptyInputGoesOn(room, passes - 1);
    }
  }

  lemma {:induction false} SomeInputEnds(room: nat, size: nat, passes: nat)
    requires 0 < size && room < Start(passes, size) + size
    ensures EndsWithin(room, size, passes)
    decreases passes
  {
    if room >= size {
      SomeInputEnds(room - size, size, passes - 1);
    }
  }

  ghost predicate RepeatEnds(room: nat, size: nat) {
    exists passes: nat :: EndsWithin(room, size, passes)
  }

  /** The repeat loop ends if and only if there is input to repeat, whatever the room. */
  lemma RepeatEndsIff(room: nat, size: nat)
    ensures RepeatEnds(room, size) <==> 0 < size
  {
    if 0 < size {
      FittingIsQuotient(room, size);
      SomeInputEnds(room, size, Fitting(room, size));
    }
    forall passes: nat | size == 0 ensures !EndsWithin(room, size, passes) {
      EmptyInputGoesOn(room, passes);
    }
  }

  // --------------------------------------------------------------------- the handler

  /** RtlCopyMemory of all of `input` to position `at` of `output`. */
  method CopyTo(output: array<byte>, at: nat, input: array<byte>)
    requires input != output && at + input.Length <= output.Length
    modifies output
    ensures output[..] == Patch(old(output[..]), at, old(input[..]))
  {
    CopyMemory(output, at, input, 0, input.Length);
    assert input[0..0 + input.Length] == input[..];
  }

  method RepeatInto(input: array<byte>, output: array<byte>, length: nat) returns (bytesWritten: nat)
    requires input != output && 0 < input.Length && length <= output.Length
    modifies output
    ensures bytesWritten == Start(Fitting(length, input.Length), input.Length) <= length
    ensures output[..] == Front(Copies(old(input[..]), Fitting(length, input.Length)), old(output[..]))
  {
    bytesWritten := 0;
    var room: nat, at := length, 0;
    ghost var s, out, done := input[..], output[..], 0;
    while room >= input.Length
      invariant at == bytesWritten == Start(done, |s|) && at + room == length
      invariant done + Fitting(room, |s|) == Fitting(length, |s|)
      invariant input[..] == s && output[..] == Front(Copies(s, done), out)
      decreases room
    {
      CopyTo(output, at, input);
      NextCopy(s, done, out);
      at := at + input.Length;
      room := room - input.Length;
      bytesWritten := bytesWritten + input.Length;
      done := done + 1;
    }
    assert done == Fitting(length, |s|);
  }

  lemma NextCopy(s: seq<byte>, k: nat, out: seq<byte>)
    requires Start(k + 1, |s|) <= |out|
    ensures Start(k, |s|) + |s| <= |out|
    ensures Patch(Front(Copies(s, k), out), Start(k, |s|), s) == Front(Copies(s, k + 1), out)
  {
  }

  method ReverseInto(input: array<byte>, output: array<byte>)
    requires input != output && input.Length <= output.Length && input.Length < TWO_32
    modifies output
    ensures output[..] == Front(Reversed(old(input[..])), old(output[..]))
  {
    for index := 0 to input.Length
      invariant forall k :: 0 <= k < index ==> output[k] == input[input.Length - 1 - k]
      invariant forall k :: index <= k < output.Length ==> output[k] == old(output[k])
      invariant input[..] == old(input[..])
    {
      output[index] := input[input.Length - index - 1];
    }
  }

  /** What SampleServiceEchoHandler reports and writes. On the overflow of the reverse function the
      byte count is left as the caller set it. Repeating needs some input. */
  method EchoHandler(code: Function, input: array<byte>, output: array<byte>, outputLength: nat, bytesBefore: nat)
    returns (status: Status, bytesWritten: nat)
    requires input != output && outputLength <= output.Length && input.Length < TWO_32
    requires code == Repeat ==> 0 < input.Length
    modifies output
    ensures status == (if code == Other then InvalidParameter
                       else if code != Repeat && outputLength < input.Length then BufferOverflow else Success)
    ensures status.Success? && code == Echo ==> output[..] == Front(old(input[..]), old(output[..]))
    ensures status.Success? && code == Reverse ==> output[..] == Front(Reversed(old(input[..])), old(output[..]))
    ensures status.Success? && code == Repeat ==>
      output[..] == Repeated(old(input[..]), outputLength, old(output[..]))
    ensures !status.Success? ==> output[..] == old(output[..])
    ensures bytesWritten == (match code
                             case Echo => input.Length
                             case Repeat => (outputLength / input.Length) * input.Length
                             case Reverse => if status.Success? then input.Length else bytesBefore
                             case Other => bytesBefore)
  {
    bytesWritten := bytesBefore;
    match code
    case Echo =>
      bytesWritten := input.Length;
      if outputLength < input.Length {
        return BufferOverflow, bytesWritten;
      }
      CopyTo(output, 0, input);
      status := Success;
    case Repeat =>
      FittingIsQuotient(outputLength, input.Length);
      StartIsProduct(Fitting(outputLength, input.Length), input.Length);
      bytesWritten := RepeatInto(input, output, outputLength);
      status := Success;
    case Reverse =>
      if outputLength < input.Length {
        return BufferOverflow, bytesWritten;
      }
      ReverseInto(input, output);
      bytesWritten := input.Length;
      status := Success;
    case Other =>
      status := InvalidParameter;
  }

  /** Test2ServiceTwiceReversed: reverse into a temporary buffer, then repeat that into an output
      of exactly twice the size. */
  method TwiceReversed(input: array<byte>, output: array<byte>, memory: bool) returns (status: Status, bytesWritten: nat)
    requires input != output && 0 < input.Length < TWO_32
    modifies output
    ensures status == (if output.Length < 2 * input.Length then BufferOverflow
                       else if !memory then InsufficientResources else Success)
    ensures bytesWritten == if status == InsufficientResources then 0 else 2 * input.Length
    ensures output[..] == if status.Success? then Front(Reversed(old(input[..] + input[..])), old(output[..]))
                          else old(output[..])
  {
    bytesWritten := 2 * input.Length;
    if output.Length < 2 * input.Length {
      return BufferOverflow, bytesWritten;
    }
    if !memory {
      return InsufficientResources, 0;
    }
    var temporary := new byte[input.Length];
    var written;
    status, written := EchoHandler(Reverse, input, temporary, input.Length, 0);
    assert temporary[..] == Reversed(old(input[..]));
    TwoFit(input.Length);
    TwoReversed(old(input[..]));
    status, written := EchoHandler(Repeat, temporary, output, 2 * input.Length, 0);
  }

  lemma TwoFit(n: nat)
    requires 0 < n
    ensures (2 * n) / n == 2
  {
    RemainderIsUnique(2 * n, n, 2, 0);
  }

  // ------------------------------------------------------------------------- algebra

  lemma ReversedAppend(a: seq<byte>, b: seq<byte>)
    ensures Reversed(a + b) == Reversed(b) + Reversed(a)
  {
    forall i | 0 <= i < |a| + |b| ensures Reversed(a + b)[i] == (Reversed(b) + Reversed(a))[i] {
      assert i < |b| ==> (a + b)[|a| + |b| - 1 - i] == b[|b| - 1 - i];
    }
  }

  /** Two copies of the reverse are the reverse of the doubled input. */
  lemma TwoReversed(s: seq<byte>)
    ensures Copies(Reversed(s), 2) == Reversed(s) + Reversed(s) == Reversed(s + s)
  {
    assert Copies(Reversed(s), 1) == Copies(Reversed(s), 0) + Reversed(s);
    ReversedAppend(s, s);
  }

  /** Byte `i` of repeated input. */
  lemma {:induction false} CopiesAt(s: seq<byte>, k: nat, i: nat)
    requires s != [] && i < |Copies(s, k)|
    ensures Copies(s, k)[i] == s[i % |s|]
  {
    if i < Start(k - 1, |s|) {
      CopiesAt(s, k - 1, i);
    } else {
      StartIsProduct(k - 1, |s|);
      RemainderIsUnique(i, |s|, k - 1, i - (k - 1) * |s|);
    }
  }
}
