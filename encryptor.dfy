/**
 * A model of the Encryptor command-line tool: a repeating-key XOR file
 * transform. The same operation with the same key both encrypts and
 * decrypts. File I/O is abstracted: a file is either unopenable or a
 * sequence of bytes, and the output file is a flag saying whether it can be
 * opened for writing.
 */
module Encryptor {

  /** Capacity of the fixed key buffer `char key[100]`. */
  const KeyCapacity: nat := 100

  // ---------------------------------------------------------------------
  // The repeating-key XOR transform
  // ---------------------------------------------------------------------

  /**
   * The reference transform: `s` combined byte by byte with `key` repeated
   * cyclically. It is defined on the prefix, in the order the loop visits
   * the bytes.
   */
  function XorCycle(s: seq<bv8>, key: seq<bv8>): (r: seq<bv8>)
    requires |key| > 0
    ensures |r| == |s|
    decreases |s|
  {
    if |s| == 0 then []
    else XorCycle(s[..|s| - 1], key) + [s[|s| - 1] ^ key[(|s| - 1) % |key|]]
  }

  /** Byte i of the result is byte i of the input XOR key byte i mod |key|. */
  lemma {:induction false} XorCycleAt(s: seq<bv8>, key: seq<bv8>, i: int)
    requires |key| > 0
    requires 0 <= i < |s|
    ensures XorCycle(s, key)[i] == s[i] ^ key[i % |key|]
  {
    if i < |s| - 1 {
      var p := s[..|s| - 1];
      XorCycleAt(p, key, i);
      assert p[i] == s[i];
    }
  }

  /** A sequence that satisfies the pointwise rule is the transform. */
  lemma {:induction false} XorCycleUnique(s: seq<bv8>, key: seq<bv8>, t: seq<bv8>)
    requires |key| > 0
    requires |t| == |s|
    requires forall i :: 0 <= i < |s| ==> t[i] == s[i] ^ key[i % |key|]
    ensures t == XorCycle(s, key)
  {
    forall i | 0 <= i < |s| ensures t[i] == XorCycle(s, key)[i] {
      XorCycleAt(s, key, i);
    }
  }

  /** Encrypting and then decrypting with the same key gives back the input. */
  lemma {:induction false} XorCycleInvolution(s: seq<bv8>, key: seq<bv8>)
    requires |key| > 0
    ensures XorCycle(XorCycle(s, key), key) == s
  {
    var t := XorCycle(s, key);
    forall i | 0 <= i < |s| ensures XorCycle(t, key)[i] == s[i] {
      XorCycleAt(t, key, i);
      XorCycleAt(s, key, i);
    }
  }

  /** "ABCDE" with key [0x01, 0x02], and back. */
  lemma XorCycleExample()
    ensures XorCycle([0x41, 0x42, 0x43, 0x44, 0x45], [0x01, 0x02]) == [0x40, 0x40, 0x42, 0x46, 0x44]
    ensures XorCycle([0x40, 0x40, 0x42, 0x46, 0x44], [0x01, 0x02]) == [0x41, 0x42, 0x43, 0x44, 0x45]
  {
    var plain: seq<bv8> := [0x41, 0x42, 0x43, 0x44, 0x45];
    var cipher: seq<bv8> := [0x40, 0x40, 0x42, 0x46, 0x44];
    var key: seq<bv8> := [0x01, 0x02];
    XorCycleUnique(plain, key, cipher);
    XorCycleInvolution(plain, key);
  }

  /** The key index `i % keyFileSize` always falls inside the key buffer. */
  function KeyIndex(i: nat, keyFileSize: nat): (k: nat)
    requires 0 < keyFileSize <= KeyCapacity
    ensures k < keyFileSize && k < KeyCapacity
  {
    i % keyFileSize
  }

  /**
   * The loop of `Encrypt`: every byte of `inBuffer` is XORed in place with
   * the key byte at the cyclic index. `inBuffer.Length` is `mainFileSize`,
   * since the buffer is allocated with exactly that many bytes. Only the
   * buffer changes; the key buffer is left as it was.
   */
  method Transform(inBuffer: array<bv8>, key: array<bv8>, keyFileSize: nat)
    requires key.Length == KeyCapacity
    requires 0 < keyFileSize <= KeyCapacity
    requires inBuffer != key
    modifies inBuffer
    ensures inBuffer[..] == XorCycle(old(inBuffer[..]), key[..keyFileSize])
    ensures key[..] == old(key[..])
  {
    var i := 0;
    while i < inBuffer.Length
      invariant 0 <= i <= inBuffer.Length
      invariant forall k :: 0 <= k < i ==> inBuffer[k] == old(inBuffer[k]) ^ key[k % keyFileSize]
      invariant forall k :: i <= k < inBuffer.Length ==> inBuffer[k] == old(inBuffer[k])
    {
      inBuffer[i] := inBuffer[i] ^ key[KeyIndex(i, keyFileSize)];
      i := i + 1;
    }
    XorCycleUnique(old(inBuffer[..]), key[..keyFileSize], inBuffer[..]);
  }

  // ---------------------------------------------------------------------
  // Encrypt: validation, error codes and the order of file operations
  // ---------------------------------------------------------------------

  /** A file named on the command line, as `fopen(..., "rb")` finds it. */
  datatype Source = Unopenable | Readable(bytes: seq<bv8>)

  datatype Role = Input | Key | Output

  /** The externally visible steps of one `Encrypt` call, in order. */
  datatype Effect =
    | Open(role: Role)        // an fopen attempt on that file
    | Allocate(size: nat)     // the input buffer is allocated and filled
    | XorInPlace              // the transform loop runs
    | Write(data: seq<bv8>)   // the buffer is written to the output file

  datatype Outcome = Outcome(code: int, effects: seq<Effect>)

  const Success: int := 0
  const OpenFailed: int := -1
  const TooSmall: int := -2

  /**
   * The key is read only when the input opens and holds more than one byte
   * and the key file opens; then its size must fit `key[100]` and be
   * non-zero, or the read overflows the buffer and `%` divides by zero.
   */
  predicate KeyDefined(input: Source, keyFile: Source)
  {
    input.Readable? && |input.bytes| > 1 && keyFile.Readable? ==>
      0 < |keyFile.bytes| <= KeyCapacity
  }

  /** The bytes that end up in the output file, if it is written. */
  function Written(o: Outcome): seq<bv8>
  {
    if |o.effects| > 0 && o.effects[|o.effects| - 1].Write? then o.effects[|o.effects| - 1].data else []
  }

  /** The specification of `Encrypt`: its return code and its effects. */
  function EncryptOutcome(input: Source, keyFile: Source, outputOpens: bool): (r: Outcome)
    requires KeyDefined(input, keyFile)
    ensures r.code == Success || r.code == OpenFailed || r.code == TooSmall
    ensures r.code == TooSmall <==> input.Readable? && |input.bytes| <= 1
    ensures r.code == Success <==> input.Readable? && |input.bytes| > 1 && keyFile.Readable? && outputOpens
    ensures r.code == Success ==> Written(r) == XorCycle(input.bytes, keyFile.bytes)
    ensures r.code != Success ==> forall e :: e in r.effects ==> !e.Write?
    ensures |r.effects| > 0 && r.effects[0] == Open(Input)
    ensures input.Unopenable? || |input.bytes| <= 1 ==> r.effects == [Open(Input)]
    ensures Open(Output) in r.effects ==> input.Readable? && |input.bytes| > 1 && keyFile.Readable?
  {
    if input.Unopenable? then Outcome(OpenFailed, [Open(Input)])
    else if |input.bytes| <= 1 then Outcome(TooSmall, [Open(Input)])
    else
      var loaded := [Open(Input), Allocate(|input.bytes|), Open(Key)];
      if keyFile.Unopenable? then Outcome(OpenFailed, loaded)
      else if !outputOpens then Outcome(OpenFailed, loaded + [XorInPlace, Open(Output)])
      else Outcome(Success, loaded + [XorInPlace, Open(Output), Write(XorCycle(input.bytes, keyFile.bytes))])
  }

  /**
   * `Encrypt` as the source runs it: load the whole input into a buffer,
   * load the key into `key[100]`, transform in place, write the buffer.
   */
  method Encrypt(input: Source, keyFile: Source, outputOpens: bool) returns (code: int, effects: seq<Effect>)
    requires KeyDefined(input, keyFile)
    ensures Outcome(code, effects) == EncryptOutcome(input, keyFile, outputOpens)
  {
    effects := [Open(Input)];
    if input.Unopenable? {
      code := OpenFailed;
      return;
    }
    var mainFileSize := |input.bytes|;
    if mainFileSize <= 1 {
      code := TooSmall;
      return;
    }
    var source := input.bytes;
    var inBuffer := new bv8[mainFileSize](i requires 0 <= i < mainFileSize => source[i]);
    effects := effects + [Allocate(mainFileSize)];

    effects := effects + [Open(Key)];
    if keyFile.Unopenable? {
      code := OpenFailed;
      return;
    }
    var keyFileSize := |keyFile.bytes|;
    var key := new bv8[KeyCapacity];
    forall i | 0 <= i < keyFileSize {
      key[i] := keyFile.bytes[i];
    }
    assert key[..keyFileSize] == keyFile.bytes;
    assert inBuffer[..] == source;

    Transform(inBuffer, key, keyFileSize);
    effects := effects + [XorInPlace];

    effects := effects + [Open(Output)];
    if !outputOpens {
      code := OpenFailed;
      return;
    }
    effects := effects + [Write(inBuffer[..])];
    code := Success;
  }

  /** Output length and content: byte i is input byte i XOR key byte i mod K. */
  lemma EncryptOutputPointwise(input: seq<bv8>, key: seq<bv8>, i: int)
    requires |input| > 1 && 0 < |key| <= KeyCapacity
    requires 0 <= i < |input|
    ensures var o := Written(EncryptOutcome(Readable(input), Readable(key), true));
      |o| == |input| && o[i] == input[i] ^ key[i % |key|]
  {
    XorCycleAt(input, key, i);
  }

  /**
   * `Encrypt`, called on its own output with the same key, succeeds and
   * writes back the original input. `main` as written never calls it with
   * three paths (see `DispatchPassesMissingPaths`).
   */
  lemma EncryptRoundTrip(plain: seq<bv8>, key: seq<bv8>)
    requires |plain| > 1 && 0 < |key| <= KeyCapacity
    ensures var once := EncryptOutcome(Readable(plain), Readable(key), true);
      var twice := EncryptOutcome(Readable(Written(once)), Readable(key), true);
      once.code == Success && twice.code == Success && Written(twice) == plain
  {
    XorCycleInvolution(plain, key);
  }

  /**
   * A key file that cannot be opened fails after the input buffer is
   * allocated and before the transform; an output file that cannot be
   * opened fails after the transform and writes nothing.
   */
  lemma LateFailureTraces(input: seq<bv8>, keyFile: Source, outputOpens: bool)
    requires |input| > 1
    requires KeyDefined(Readable(input), keyFile)
    requires keyFile.Unopenable? || !outputOpens
    ensures var r := EncryptOutcome(Readable(input), keyFile, outputOpens);
      r.code == OpenFailed &&
      r.effects == (if keyFile.Unopenable?
                    then [Open(Input), Allocate(|input|), Open(Key)]
                    else [Open(Input), Allocate(|input|), Open(Key), XorInPlace, Open(Output)])
  {
  }

  /**
   * The output file is opened only after the transform has run, and the
   * key file only after the input buffer is allocated.
   */
  lemma EffectsInOrder(input: Source, keyFile: Source, outputOpens: bool, j: int)
    requires KeyDefined(input, keyFile)
    requires 0 <= j < |EncryptOutcome(input, keyFile, outputOpens).effects|
    ensures var es := EncryptOutcome(input, keyFile, outputOpens).effects;
      (es[j] == Open(Output) ==> XorInPlace in es[..j]) &&
      (es[j] == Open(Key) ==> exists n :: Allocate(n) in es[..j]) &&
      (es[j].Write? ==> Open(Output) in es[..j])
  {
    var es := EncryptOutcome(input, keyFile, outputOpens).effects;
    if input.Readable? && |input.bytes| > 1 {
      var n := |input.bytes|;
      assert es[0] == Open(Input) && es[1] == Allocate(n) && es[2] == Open(Key);
      if j >= 2 {
        assert es[..j][1] == Allocate(n);
      }
      if j >= 4 {
        assert es[3] == XorInPlace && es[..j][3] == XorInPlace;
      }
      if j >= 5 {
        assert es[4] == Open(Output) && es[..j][4] == Open(Output);
      }
    }
  }

  // ---------------------------------------------------------------------
  // main: argument dispatch
  // ---------------------------------------------------------------------

  /** What `argv[i]` holds: a string, the terminating null pointer, or nothing (read past the array). */
  datatype Arg = Given(s: string) | NullArg | OutOfRange

  /** `argv[i]` for `argv` of length `|args|`; the C runtime puts a null pointer at `argv[argc]`. */
  function ArgAt(args: seq<string>, i: nat): (a: Arg)
    ensures a.Given? <==> i < |args|
    ensures i < |args| ==> a == Given(args[i])
    ensures a == NullArg <==> i == |args|
  {
    if i < |args| then Given(args[i]) else if i == |args| then NullArg else OutOfRange
  }

  /** `argv[1][0] == '-' && argv[1][1] == 'h'` on a nul-terminated string. */
  predicate IsHelpFlag(a: string)
  {
    |a| >= 2 && a[0] == '-' && a[1] == 'h'
  }

  datatype Command = Hint | Usage | CallEncrypt(fileIn: Arg, keyFileIn: Arg, fileOut: Arg)

  /** The command `main` carries out and the status it returns. */
  datatype Decision = Decision(command: Command, status: int)

  /**
   * `main` as written. `args` is `argv`, so `|args|` is `argc` and counts the
   * program name. Encrypt's return value is discarded, so the status is 0.
   */
  function Dispatch(args: seq<string>): (d: Decision)
    ensures d.status == 0
    ensures d.command.Hint? <==> |args| == 1 || |args| > 3
    ensures d.command.Usage? <==> |args| == 2 && IsHelpFlag(args[1])
    ensures d.command.CallEncrypt? <==> |args| == 0 || |args| == 3 || (|args| == 2 && !IsHelpFlag(args[1]))
    ensures d.command.CallEncrypt? ==> d.command == CallEncrypt(ArgAt(args, 1), ArgAt(args, 2), ArgAt(args, 3))
  {
    if |args| == 1 || |args| > 3 then Decision(Hint, 0)
    else if |args| == 2 && IsHelpFlag(args[1]) then Decision(Usage, 0)
    else Decision(CallEncrypt(ArgAt(args, 1), ArgAt(args, 2), ArgAt(args, 3)), 0)
  }

  /** As written, the documented invocation with three file names only prints the hint. */
  lemma DispatchThreePathsShowsHint(program: string, fileIn: string, keyFileIn: string, fileOut: string)
    ensures Dispatch([program, fileIn, keyFileIn, fileOut]).command == Hint
  {
  }

  /**
   * As written, whenever `Encrypt` is reached its output path is a null
   * pointer or lies past the end of `argv`: no call ever names three files.
   */
  lemma DispatchPassesMissingPaths(args: seq<string>)
    ensures Dispatch(args).command.CallEncrypt? ==> !Dispatch(args).command.fileOut.Given?
  {
  }

  /**
   * The evidently intended dispatch: three file names run the transform,
   * a single `-h...` argument prints the usage, anything else the hint.
   */
  function DispatchIntended(args: seq<string>): (d: Decision)
    ensures d.status == 0
    ensures d.command.CallEncrypt? <==> |args| == 4
    ensures d.command.CallEncrypt? ==>
      d.command == CallEncrypt(Given(args[1]), Given(args[2]), Given(args[3]))
    ensures d.command.Usage? <==> |args| == 2 && IsHelpFlag(args[1])
  {
    if |args| == 4 then Decision(CallEncrypt(ArgAt(args, 1), ArgAt(args, 2), ArgAt(args, 3)), 0)
    else if |args| == 2 && IsHelpFlag(args[1]) then Decision(Usage, 0)
    else Decision(Hint, 0)
  }

  /** The intended dispatch agrees with the written one on help and on the too-many-arguments hint. */
  lemma DispatchIntendedAgrees(args: seq<string>)
    requires |args| != 4
    ensures DispatchIntended(args).command.Usage? == Dispatch(args).command.Usage?
    ensures |args| == 1 || |args| > 4 ==> DispatchIntended(args) == Dispatch(args)
  {
  }
}
