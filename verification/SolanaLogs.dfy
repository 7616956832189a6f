/**
 Finding a program's events in Solana transaction logs. Log lines say when a program is entered and left; data lines
 belong to the program entered last. Programs may call others, so lines of several programs interleave.
 */
module SolanaLogs {
  import opened Wrappers
  import opened RawBytes
  import Text

  const DATA_PREFIX := "Program data: "
  const LINE_PREFIX := "Program "

  // --- One line.

  datatype Line = DataLine(encoded: string) | Enter(program: string) | Leave | Ignored

  predicate HasPrefix(s: string, prefix: string) {
    |prefix| <= |s| && s[..|prefix|] == prefix
  }

  predicate IsProgramID(token: string) {
    32 <= |token| <= 44
  }

  function Read(line: string): Line {
    if HasPrefix(line, DATA_PREFIX) then DataLine(line[|DATA_PREFIX|..])
    else if !HasPrefix(line, LINE_PREFIX) then Ignored
    else
      var rest := line[|LINE_PREFIX|..];
      var cut := Text.Find(rest, " ");
      if cut == |rest| || !IsProgramID(rest[..cut]) then Ignored
      else
        var action := rest[cut + 1..];
        if HasPrefix(action, "invoke [") then Enter(rest[..cut])
        else if HasPrefix(action, "success") || HasPrefix(action, "failed") then Leave
        else Ignored
  }

  // --- All lines.

  datatype State<E> = State(stack: seq<string>, out: seq<E>)

  /** Data counts when the program entered last is the wanted one and the data decodes. */
  function Step<E>(s: State<E>, line: Line, programID: string, decode: string -> Option<E>): State<E> {
    match line
    case DataLine(encoded) =>
      if s.stack == [] || s.stack[|s.stack| - 1] != programID || decode(encoded).None? then s
      else s.(out := s.out + [decode(encoded).value])
    case Enter(program) => s.(stack := s.stack + [program])
    case Leave => if s.stack == [] then s else s.(stack := s.stack[..|s.stack| - 1])
    case Ignored => s
  }

  function Run<E>(s: State<E>, lines: seq<string>, programID: string, decode: string -> Option<E>): State<E> {
    if lines == [] then s else Step(Run(s, lines[..|lines| - 1], programID, decode), Read(lines[|lines| - 1]), programID, decode)
  }

  method ParseProgramLogs<E>(logs: seq<string>, programID: string, decode: string -> Option<E>) returns (out: seq<E>)
    ensures out == Run(State([], []), logs, programID, decode).out
  {
    hide Text.FindFrom;
    out := [];
    var invokeStack: seq<string> := [];
    for i := 0 to |logs|
      invariant Run(State([], []), logs[..i], programID, decode) == State(invokeStack, out)
    {
      assert logs[..i + 1][..i] == logs[..i];
      var line := logs[i];
      if HasPrefix(line, DATA_PREFIX) {
        var encoded := line[|DATA_PREFIX|..];
        if invokeStack == [] || invokeStack[|invokeStack| - 1] != programID {
          continue;
        }
        var event := decode(encoded);
        if event.Some? {
          out := out + [event.value];
        }
        continue;
      }
      if !HasPrefix(line, LINE_PREFIX) {
        continue;
      }
      var rest := line[|LINE_PREFIX|..];
      var cut := Text.Find(rest, " ");
      if cut == |rest| || !IsProgramID(rest[..cut]) {
        continue;
      }
      var id, action := rest[..cut], rest[cut + 1..];
      if HasPrefix(action, "invoke [") {
        invokeStack := invokeStack + [id];
      } else if (HasPrefix(action, "success") || HasPrefix(action, "failed")) && invokeStack != [] {
        invokeStack := invokeStack[..|invokeStack| - 1];
      }
    }
    assert logs[..|logs|] == logs;
  }

  // --- What the runtime prints.

  /** What happens inside one program, in order: data it emits, other lines, and calls to other programs. */
  datatype Trace =
    | Done
    | Data(encoded: string, next: Trace)
    | Noise(line: string, next: Trace)
    | Call(program: string, depth: string, inner: Trace, ending: string, next: Trace)

  function Print(t: Trace): seq<string> {
    match t
    case Done => []
    case Data(encoded, next) => [DATA_PREFIX + encoded] + Print(next)
    case Noise(line, next) => [line] + Print(next)
    case Call(program, depth, inner, ending, next) =>
      [LINE_PREFIX + (program + (" " + ("invoke [" + depth)))] + Print(inner) + [LINE_PREFIX + (program + (" " + ending))] + Print(next)
  }

  predicate ProgramName(program: string) {
    32 <= |program| <= 44 && forall i :: 0 <= i < |program| ==> program[i] != ' '
  }

  predicate WellNested(t: Trace) {
    match t
    case Done => true
    case Data(_, next) => WellNested(next)
    case Noise(line, next) => Read(line) == Ignored && WellNested(next)
    case Call(program, _, inner, ending, next) =>
      ProgramName(program) && (HasPrefix(ending, "success") || HasPrefix(ending, "failed")) && WellNested(inner) && WellNested(next)
  }

  /** The decodable data emitted directly by the wanted program, in order. */
  function Emitted<E>(t: Trace, current: Option<string>, programID: string, decode: string -> Option<E>): seq<E> {
    match t
    case Done => []
    case Data(encoded, next) =>
      (if current == Some(programID) && decode(encoded).Some? then [decode(encoded).value] else []) + Emitted(next, current, programID, decode)
    case Noise(_, next) => Emitted(next, current, programID, decode)
    case Call(program, _, inner, _, next) => Emitted(inner, Some(program), programID, decode) + Emitted(next, current, programID, decode)
  }

  // --- Reading what was printed.

  lemma CutAtSpace(program: string, action: string)
    requires ProgramName(program)
    ensures Text.Find(program + (" " + action), " ") == |program|
  {
    hide Text.FindFrom;
    var s := program + (" " + action);
    var i := Text.Find(s, " ");
    assert Text.At(s, " ", |program|) by { assert s[|program|..|program| + 1] == " "; }
    if i < |program| { SpaceAt(s, i); }
  }

  lemma SpaceAt(s: string, i: nat)
    requires Text.At(s, " ", i)
    ensures s[i] == ' '
  {
    assert s[i..i + 1][0] == s[i];
  }

  /** A line about a program is never taken for a data line: those have a space where the program's name goes on. */
  lemma ProgramLineReads(program: string, action: string)
    requires ProgramName(program)
    ensures Read(LINE_PREFIX + (program + (" " + action))) ==
            if HasPrefix(action, "invoke [") then Enter(program)
            else if HasPrefix(action, "success") || HasPrefix(action, "failed") then Leave
            else Ignored
  {
    hide Text.FindFrom, HasPrefix;
    var rest := program + (" " + action);
    var line := LINE_PREFIX + rest;
    NotData(line, program, action);
    PrefixOf(LINE_PREFIX, rest);
    assert line[|LINE_PREFIX|..] == rest;
    CutAtSpace(program, action);
    assert rest[..|program|] == program && rest[|program| + 1..] == action;
  }

  lemma NotData(line: string, program: string, action: string)
    requires ProgramName(program) && line == LINE_PREFIX + (program + (" " + action))
    ensures !HasPrefix(line, DATA_PREFIX)
  {
    assert line[12] == program[4] && line[13] == program[5] && DATA_PREFIX[13] == ' ';
    PrefixChar(line, DATA_PREFIX, 13);
  }

  lemma PrefixChar(s: string, prefix: string, i: nat)
    requires i < |prefix|
    ensures HasPrefix(s, prefix) ==> s[i] == prefix[i]
  {
    if HasPrefix(s, prefix) { assert s[..|prefix|][i] == s[i]; }
  }

  lemma PrefixOf(prefix: string, rest: string)
    ensures HasPrefix(prefix + rest, prefix) && (prefix + rest)[|prefix|..] == rest
  {
    assert (prefix + rest)[..|prefix|] == prefix;
  }

  /** Whatever a program prints as a log message is ignored, so a message cannot pass for a call or for data. */
  lemma LogMessagesAreIgnored(message: string)
    ensures Read(LINE_PREFIX + ("log: " + message)) == Ignored
  {
    hide Text.FindFrom;
    var rest := "log: " + message;
    var line := LINE_PREFIX + rest;
    PrefixOf(LINE_PREFIX, rest);
    assert line[8] == 'l' && DATA_PREFIX[8] == 'd';
    PrefixChar(line, DATA_PREFIX, 8);
    var cut := Text.Find(rest, " ");
    assert Text.At(rest, " ", 4) by { assert rest[4..5] == " "; }
  }

  lemma {:induction false} RunJoins<E>(s: State<E>, a: seq<string>, b: seq<string>, programID: string, decode: string -> Option<E>)
    ensures Run(s, a + b, programID, decode) == Run(Run(s, a, programID, decode), b, programID, decode)
    decreases |b|
  {
    hide Read, Step;
    if b == [] {
      assert a + b == a;
    } else {
      RunJoins(s, a, b[..|b| - 1], programID, decode);
      assert (a + b)[..|a + b| - 1] == a + b[..|b| - 1];
    }
  }

  lemma RunOne<E>(s: State<E>, line: string, programID: string, decode: string -> Option<E>)
    ensures Run(s, [line], programID, decode) == Step(s, Read(line), programID, decode)
  {
    hide Read, Step;
    assert [line][..0] == [];
    assert Run(s, [], programID, decode) == s;
  }

  lemma RunFirst<E>(s: State<E>, line: string, rest: seq<string>, programID: string, decode: string -> Option<E>)
    ensures Run(s, [line] + rest, programID, decode) == Run(Step(s, Read(line), programID, decode), rest, programID, decode)
  {
    hide Run, Read, Step;
    RunOne(s, line, programID, decode);
    RunJoins(s, [line], rest, programID, decode);
  }

  function Innermost(stack: seq<string>): Option<string> {
    if stack == [] then None else Some(stack[|stack| - 1])
  }

  /** Reading the lines of any well-nested trace finds exactly the decodable data the wanted program emitted itself, and leaves the stack as it was. */
  lemma {:induction false} PrintedTraceIsRead<E>(t: Trace, s: State<E>, programID: string, decode: string -> Option<E>)
    requires WellNested(t)
    ensures Run(s, Print(t), programID, decode) == State(s.stack, s.out + Emitted(t, Innermost(s.stack), programID, decode))
    decreases t
  {
    hide Run, Read, HasPrefix;
    match t {
      case Done =>
        RunNone(s, programID, decode);
      case Data(encoded, next) =>
        DataReads(encoded);
        RunFirst(s, DATA_PREFIX + encoded, Print(next), programID, decode);
        PrintedTraceIsRead(next, Step(s, DataLine(encoded), programID, decode), programID, decode);
      case Noise(line, next) =>
        RunFirst(s, line, Print(next), programID, decode);
        PrintedTraceIsRead(next, s, programID, decode);
      case Call(program, depth, inner, ending, next) =>
        CallIsRead(t, s, programID, decode);
    }
  }

  lemma {:induction false} CallIsRead<E>(t: Trace, s: State<E>, programID: string, decode: string -> Option<E>)
    requires WellNested(t) && t.Call?
    ensures Run(s, Print(t), programID, decode) == State(s.stack, s.out + Emitted(t, Innermost(s.stack), programID, decode))
    decreases t, 0
  {
    hide Run, Read, Step, HasPrefix, ProgramName, Print, Emitted, Innermost;
    CallUnfolds(t, Innermost(s.stack), programID, decode);
    var first, last := LINE_PREFIX + (t.program + (" " + ("invoke [" + t.depth))), LINE_PREFIX + (t.program + (" " + t.ending));
    var s1 := State(s.stack + [t.program], s.out);
    CallLines(t);
    StepsOfCall(s, t.program, programID, decode);
    PrintedTraceIsRead(t.inner, s1, programID, decode);
    var s2 := Run(s1, Print(t.inner), programID, decode);
    StepsOfCall(State(s.stack, s2.out), t.program, programID, decode);
    PrintedTraceIsRead(t.next, State(s.stack, s2.out), programID, decode);
    RunInParts(s, first, Print(t.inner), last, Print(t.next), programID, decode);
  }

  lemma CallUnfolds<E>(t: Trace, current: Option<string>, programID: string, decode: string -> Option<E>)
    requires t.Call?
    ensures Print(t) == [LINE_PREFIX + (t.program + (" " + ("invoke [" + t.depth)))] + Print(t.inner) + [LINE_PREFIX + (t.program + (" " + t.ending))] + Print(t.next)
    ensures Emitted(t, current, programID, decode) == Emitted(t.inner, Some(t.program), programID, decode) + Emitted(t.next, current, programID, decode)
  {
  }

  lemma CallLines(t: Trace)
    requires WellNested(t) && t.Call?
    ensures Read(LINE_PREFIX + (t.program + (" " + ("invoke [" + t.depth)))) == Enter(t.program)
    ensures Read(LINE_PREFIX + (t.program + (" " + t.ending))) == Leave
  {
    hide Read, HasPrefix, ProgramName;
    PrefixOf("invoke [", t.depth);
    ProgramLineReads(t.program, "invoke [" + t.depth);
    ProgramLineReads(t.program, t.ending);
    EndingIsNotInvoke(t.ending);
  }

  lemma StepsOfCall<E>(s: State<E>, program: string, programID: string, decode: string -> Option<E>)
    ensures Step(s, Enter(program), programID, decode) == State(s.stack + [program], s.out)
    ensures Step(State(s.stack + [program], s.out), Leave, programID, decode) == s
    ensures Innermost(s.stack + [program]) == Some(program)
  {
    assert (s.stack + [program])[..|s.stack|] == s.stack;
  }

  lemma RunInParts<E>(s: State<E>, first: string, inner: seq<string>, last: string, next: seq<string>, programID: string, decode: string -> Option<E>)
    ensures Run(s, [first] + inner + [last] + next, programID, decode) ==
            Run(Step(Run(Step(s, Read(first), programID, decode), inner, programID, decode), Read(last), programID, decode), next, programID, decode)
  {
    hide Run, Read, Step;
    RunOne(s, first, programID, decode);
    RunJoins(s, [first], inner, programID, decode);
    RunOne(Run(s, [first] + inner, programID, decode), last, programID, decode);
    RunJoins(s, [first] + inner, [last], programID, decode);
    RunJoins(s, [first] + inner + [last], next, programID, decode);
  }

  lemma RunNone<E>(s: State<E>, programID: string, decode: string -> Option<E>)
    ensures Run(s, [], programID, decode) == s
  {
  }

  lemma DataReads(encoded: string)
    ensures Read(DATA_PREFIX + encoded) == DataLine(encoded)
  {
    hide Text.FindFrom;
    PrefixOf(DATA_PREFIX, encoded);
  }

  lemma EndingIsNotInvoke(ending: string)
    requires HasPrefix(ending, "success") || HasPrefix(ending, "failed")
    ensures !HasPrefix(ending, "invoke [")
  {
    PrefixChar(ending, "success", 0);
    PrefixChar(ending, "failed", 0);
    PrefixChar(ending, "invoke [", 0);
  }

  // --- Event data.

  datatype Event =
    | NewCommitment(commitment: Bytes, index: Bytes, encrypted: Bytes, onChain: seq<Bytes>)
    | Nullified(nullifier: Bytes)
    | BlockedUtxosCreated

  const NEW_COMMITMENT: Bytes := [78, 21, 75, 243, 5, 132, 204, 67]
  const NULLIFIED: Bytes := [124, 69, 200, 64, 75, 203, 121, 17]
  const BLOCKED_UTXOS: Bytes := [64, 214, 216, 215, 75, 156, 106, 107]

  function Uint32(b: Bytes): nat
    requires |b| == 4
  {
    b[0] as int + 256 * b[1] as int + 65536 * b[2] as int + 16777216 * b[3] as int
  }

  function Uint32Bytes(n: nat): Bytes
    requires n < 0x1_0000_0000
  {
    [n % 256, n / 256 % 256, n / 65536 % 256, n / 16777216]
  }

  function Words(b: Bytes, n: nat): seq<Bytes>
    requires |b| >= 32 * n
  {
    seq(n, i requires 0 <= i < n => b[32 * i..32 * i + 32])
  }

  function DecodeNewCommitment(b: Bytes): Option<Event> {
    if |b| < 68 then None
    else
      var encLen := Uint32(b[64..68]);
      if |b| < 68 + encLen + 288 then None
      else Some(NewCommitment(b[..32], b[32..64], b[68..68 + encLen], Words(b[68 + encLen..], 9)))
  }

  function DecodeEventData(full: Bytes): Option<Event> {
    if |full| < 8 then None
    else
      var fields := full[8..];
      if full[..8] == NEW_COMMITMENT then DecodeNewCommitment(fields)
      else if full[..8] == NULLIFIED then if |fields| < 32 then None else Some(Nullified(fields[..32]))
      else if full[..8] == BLOCKED_UTXOS then Some(BlockedUtxosCreated)
      else None
  }

  function Concat(words: seq<Bytes>): Bytes {
    if words == [] then [] else Concat(words[..|words| - 1]) + words[|words| - 1]
  }

  predicate Sized(e: Event) {
    match e
    case NewCommitment(commitment, index, encrypted, onChain) =>
      |commitment| == |index| == 32 && |encrypted| < 0x1_0000_0000 && |onChain| == 9 && forall i :: 0 <= i < 9 ==> |onChain[i]| == 32
    case Nullified(nullifier) => |nullifier| == 32
    case BlockedUtxosCreated => true
  }

  function Fields(e: Event): Bytes
    requires Sized(e)
  {
    match e
    case NewCommitment(commitment, index, encrypted, onChain) =>
      commitment + index + Uint32Bytes(|encrypted|) + encrypted + Concat(onChain)
    case Nullified(nullifier) => nullifier
    case BlockedUtxosCreated => []
  }

  function Discriminator(e: Event): Bytes {
    match e
    case NewCommitment(_, _, _, _) => NEW_COMMITMENT
    case Nullified(_) => NULLIFIED
    case BlockedUtxosCreated => BLOCKED_UTXOS
  }

  lemma Uint32RoundTrip(n: nat, b: Bytes)
    requires n < 0x1_0000_0000 && |b| == 4
    ensures Uint32(b) == n <==> b == Uint32Bytes(n)
  {
    assert n / 65536 == n / 256 / 256 && n / 16777216 == n / 256 / 256 / 256;
    if Uint32(b) == n {
      assert n / 256 == b[1] as int + 256 * b[2] as int + 65536 * b[3] as int;
      assert n / 256 / 256 == b[2] as int + 256 * b[3] as int;
    }
  }

  lemma {:induction false} ConcatIsWords(words: seq<Bytes>, b: Bytes)
    requires |b| >= 32 * |words| && forall i :: 0 <= i < |words| ==> |words[i]| == 32
    ensures |Concat(words)| == 32 * |words| && (Words(b, |words|) == words <==> Concat(words) <= b)
    decreases |words|
  {
    if words != [] {
      var n := |words| - 1;
      ConcatIsWords(words[..n], b);
      var all, init := Words(b, n + 1), Words(b, n);
      assert all[..n] == init && all[n] == b[32 * n..32 * n + 32];
      assert words == words[..n] + [words[n]] && all == init + [all[n]];
      var c := Concat(words[..n]);
      assert c + words[n] <= b <==> c <= b && words[n] == b[32 * n..32 * n + 32] by {
        if c + words[n] <= b {
          assert b[..32 * n] == (c + words[n])[..32 * n] == c;
          assert b[32 * n..32 * n + 32] == (c + words[n])[32 * n..] == words[n];
        }
        if c <= b && words[n] == b[32 * n..32 * n + 32] { assert b[..32 * n + 32] == c + words[n]; }
      }
    }
  }

  lemma Uint32Bound(b: Bytes)
    requires |b| == 4
    ensures Uint32(b) < 0x1_0000_0000
  {
  }

  lemma PrefixSplits(a: Bytes, c: Bytes, b: Bytes)
    ensures a + c <= b <==> |a| <= |b| && a == b[..|a|] && c <= b[|a|..]
  {
    if a + c <= b {
      assert b[..|a|] == (a + c)[..|a|] && b[|a|..][..|c|] == (a + c)[|a|..];
    }
    if |a| <= |b| && a == b[..|a|] && c <= b[|a|..] {
      assert b[..|a| + |c|] == a + c;
    }
  }

  lemma DecodedIsSized(b: Bytes)
    requires DecodeNewCommitment(b).Some?
    ensures Sized(DecodeNewCommitment(b).value)
  {
    hide Uint32;
    Uint32Bound(b[64..68]);
  }

  /** A commitment event is decoded from exactly the texts that start with its fields. */
  lemma CommitmentDecodesIff(e: Event, b: Bytes)
    requires e.NewCommitment? && Sized(e)
    ensures DecodeNewCommitment(b) == Some(e) <==> Fields(e) <= b
  {
    hide Uint32, Uint32Bytes, Words, Concat;
    var size, words := Uint32Bytes(|e.encrypted|), Concat(e.onChain);
    assert |size| == 4 by { SizeHasFourBytes(|e.encrypted|); }
    assert Fields(e) == e.commitment + (e.index + (size + (e.encrypted + words)));
    PrefixSplits(e.commitment, e.index + (size + (e.encrypted + words)), b);
    if |b| >= 68 {
      PrefixSplits(e.index, size + (e.encrypted + words), b[32..]);
      PrefixSplits(size, e.encrypted + words, b[32..][32..]);
      PrefixSplits(e.encrypted, words, b[32..][32..][4..]);
      assert b[32..][32..][4..] == b[68..] && b[32..][..32] == b[32..64] && b[32..][32..][..4] == b[64..68];
      Uint32RoundTrip(|e.encrypted|, b[64..68]);
      WordsLength(e.onChain);
      if |b| >= 68 + |e.encrypted| + 288 {
        ConcatIsWords(e.onChain, b[68 + |e.encrypted|..]);
        assert b[68..][|e.encrypted|..] == b[68 + |e.encrypted|..] && b[68..][..|e.encrypted|] == b[68..68 + |e.encrypted|];
      }
    } else {
      assert |Fields(e)| >= 68;
    }
  }

  lemma SizeHasFourBytes(n: nat)
    requires n < 0x1_0000_0000
    ensures |Uint32Bytes(n)| == 4
  {
  }

  lemma {:induction false} WordsLength(words: seq<Bytes>)
    requires forall i :: 0 <= i < |words| ==> |words[i]| == 32
    ensures |Concat(words)| == 32 * |words|
    decreases |words|
  {
    if words != [] { WordsLength(words[..|words| - 1]); }
  }

  /** Data decodes to an event exactly when it starts with the event's encoding. */
  lemma DecodesIff(full: Bytes, e: Event)
    ensures DecodeEventData(full) == Some(e) <==> Sized(e) && Discriminator(e) + Fields(e) <= full
  {
    hide DecodeNewCommitment;
    assert NEW_COMMITMENT[0] != NULLIFIED[0] && NEW_COMMITMENT[0] != BLOCKED_UTXOS[0] && NULLIFIED[0] != BLOCKED_UTXOS[0];
    if |full| >= 8 {
      if DecodeNewCommitment(full[8..]).Some? { DecodedIsSized(full[8..]); }
      DecodedKind(full);
      if Sized(e) {
        PrefixSplits(Discriminator(e), Fields(e), full);
        assert |Discriminator(e)| == 8;
        match e {
          case NewCommitment(_, _, _, _) => CommitmentDecodesIff(e, full[8..]);
          case Nullified(nullifier) => assert nullifier <= full[8..] <==> |full| >= 40 && full[8..][..32] == nullifier;
          case BlockedUtxosCreated =>
        }
      }
    }
  }

  lemma DecodedKind(full: Bytes)
    ensures DecodeEventData(full).Some? ==>
              var e := DecodeEventData(full).value;
              |full| >= 8 && full[..8] == Discriminator(e) && (e.NewCommitment? ==> DecodeNewCommitment(full[8..]) == Some(e))
  {
    hide Uint32, Words;
  }
}
