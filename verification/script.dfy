/** `ScriptInterpreter`: the byte-code stepper of the engine.  A script is
    a byte sequence run from a program counter; `readByte` yields 0 and
    stays put at the end of the code, `readWord` is little-endian, and six
    opcodes have an effect (STOP_SCRIPT, SET_VAR, GET_VAR, JUMP, LOAD_ROOM,
    START_SOUND); every other byte is skipped as a one-byte instruction.
    The interpreter's fields become one immutable `Interp` value that each
    operation takes and returns. */
module Script {
  import opened Bytes

  /** The interpreter's state: the loaded code (none before `loadScript`),
      the program counter, the value stack, the game variables (a
      JavaScript array: any integer key may be set, keys 0..255 start at
      0), the current room and the running flag. */
  datatype Interp = Interp(
    code: Option<seq<byte>>,
    pc: nat,
    stack: seq<int>,
    vars: map<int, int>,
    room: int,
    running: bool)

  /** The opcodes the interpreter acts on. */
  const StopScript: byte := 0x00
  const Jump: byte := 0x18
  const StartSound: byte := 0x1C
  const SetVar: byte := 0x40
  const GetVar: byte := 0x41
  const LoadRoom: byte := 0x72

  /** The constructor: no script, 256 zero variables, room 1, stopped. */
  function NewInterp(): (s: Interp)
    ensures s.code.None? && s.pc == 0 && s.stack == [] && s.room == 1 && !s.running
    ensures forall k :: 0 <= k < 256 <==> k in s.vars
    ensures forall k :: k in s.vars ==> s.vars[k] == 0
  {
    Interp(None, 0, [], ZeroVars(256), 1, false)
  }

  /** `new Array(n).fill(0)`: keys `0 .. n - 1`, all zero. */
  function ZeroVars(n: nat): (m: map<int, int>)
    ensures forall k :: k in m <==> 0 <= k < n
    ensures forall k :: k in m ==> m[k] == 0
  {
    if n == 0 then map[] else ZeroVars(n - 1)[n - 1 := 0]
  }

  /** `loadScript(data)`: the code, program counter 0, an empty stack;
      the variables, the room and the running flag stay. */
  function LoadScript(s: Interp, data: seq<byte>): (t: Interp)
    ensures t.code == Some(data) && t.pc == 0 && t.stack == []
    ensures t.vars == s.vars && t.room == s.room && t.running == s.running
  {
    s.(code := Some(data), pc := 0, stack := [])
  }

  /** `reset()`: program counter 0, empty stack, stopped; the code stays. */
  function Reset(s: Interp): (t: Interp)
    ensures t.pc == 0 && t.stack == [] && !t.running
    ensures t.code == s.code && t.vars == s.vars && t.room == s.room
  {
    s.(pc := 0, stack := [], running := false)
  }

  /** `stop()`. */
  function Stop(s: Interp): (t: Interp)
    ensures !t.running
    ensures t.code == s.code && t.pc == s.pc && t.stack == s.stack && t.vars == s.vars && t.room == s.room
  {
    s.(running := false)
  }

  /** `setVariable(index, value)`. */
  function SetVariable(s: Interp, index: int, value: int): (t: Interp)
    ensures index in t.vars && t.vars[index] == value
    ensures forall k :: k != index ==> (k in t.vars <==> k in s.vars)
    ensures forall k :: k != index && k in s.vars ==> t.vars[k] == s.vars[k]
  {
    s.(vars := s.vars[index := value])
  }

  /** `getVariable(index)`; `None` stands for `undefined`. */
  function GetVariable(s: Interp, index: int): (v: Option<int>)
    ensures v.Some? <==> index in s.vars
    ensures v.Some? ==> v.value == s.vars[index]
  {
    if index in s.vars then Some(s.vars[index]) else None
  }

  /** Whether a byte is left at the program counter. */
  predicate HasByte(s: Interp)
  {
    s.code.Some? && s.pc < |s.code.value|
  }

  /** `readByte()`: the byte at the program counter, which moves past it;
      0 and no move when there is none. */
  function ReadByte(s: Interp): (r: (Interp, byte))
    ensures HasByte(s) ==> r.1 == s.code.value[s.pc] && r.0 == s.(pc := s.pc + 1)
    ensures !HasByte(s) ==> r == (s, 0)
  {
    if HasByte(s) then (s.(pc := s.pc + 1), s.code.value[s.pc]) else (s, 0)
  }

  /** `readWord()`: two `readByte` calls, low byte first. */
  function ReadWord(s: Interp): (r: (Interp, nat))
    ensures r.1 < 0x1_0000
    ensures r.0 == s.(pc := r.0.pc)
  {
    var (s1, lo) := ReadByte(s);
    var (s2, hi) := ReadByte(s1);
    (s2, lo + 256 * hi)
  }

  /** Where the program counter ends after reading `n` bytes from `pc`:
      reading stops at the end of the code. */
  function Advance(pc: nat, n: nat, len: nat): (p: nat)
    ensures pc < len ==> p == Min(pc + n, len)
    ensures len <= pc ==> p == pc
  {
    if len <= pc then pc else Min(pc + n, len)
  }

  /** A word read with both bytes present is the little-endian word at the
      program counter; otherwise the missing bytes read as 0.  Either way
      the counter moves past the bytes that were there. */
  lemma ReadWordReads(s: Interp)
    requires s.code.Some?
    ensures ReadWord(s).0.pc == Advance(s.pc, 2, |s.code.value|)
    ensures s.pc + 1 < |s.code.value| ==> ReadWord(s).1 == U16(s.code.value, s.pc)
    ensures s.pc + 1 == |s.code.value| ==> ReadWord(s).1 == s.code.value[s.pc]
    ensures s.pc >= |s.code.value| ==> ReadWord(s).1 == 0
  {
  }

  /** `executeOpcode(opcode)` after the opcode byte has been read. */
  function Execute(s: Interp, op: byte): (t: Interp)
    ensures t.code == s.code
    ensures t.running == (s.running && op != StopScript)
    ensures op != SetVar ==> t.vars == s.vars
    ensures op != GetVar ==> t.stack == s.stack
    ensures op != LoadRoom ==> t.room == s.room
    ensures op !in {StopScript, Jump, StartSound, SetVar, GetVar, LoadRoom} ==> t == s
  {
    if op == StopScript then s.(running := false)
    else if op == SetVar then
      var (s1, v) := ReadByte(s);
      var (s2, w) := ReadWord(s1);
      s2.(vars := s2.vars[v := w])
    else if op == GetVar then
      // A missing key would give `undefined` in the source; VarsStayDefined shows every byte-sized key is present, so the 0 here is never used.
      var (s1, v) := ReadByte(s);
      var value := if v in s1.vars then s1.vars[v] else 0;
      s1.(stack := s1.stack + [value])
    else if op == Jump then
      var (s1, w) := ReadWord(s);
      s1.(pc := w)
    else if op == LoadRoom then
      var (s1, r) := ReadByte(s);
      s1.(room := r)
    else if op == StartSound then
      ReadByte(s).0
    else s
  }

  /** `step()`: without a byte at the program counter nothing happens and
      the answer is false; otherwise one opcode byte is consumed and
      executed, and the answer is the running flag afterwards. */
  function Step(s: Interp): (r: (Interp, bool))
    ensures !HasByte(s) ==> r == (s, false)
    ensures HasByte(s) ==> r.1 == r.0.running && r.0 == Execute(s.(pc := s.pc + 1), s.code.value[s.pc])
  {
    if !HasByte(s) then (s, false)
    else
      var (s1, op) := ReadByte(s);
      var t := Execute(s1, op);
      (t, t.running)
  }

  /** The operand bytes each opcode reads (JUMP's are read and then the
      counter is replaced). */
  function OperandBytes(op: byte): nat
  {
    if op == SetVar then 3
    else if op == GetVar || op == LoadRoom || op == StartSound then 1
    else 0
  }

  /** The variables 0..255 are defined: the array starts with 256 of
      them and no operation removes one. */
  predicate VarsDefined(s: Interp)
  {
    forall k :: 0 <= k < 256 ==> k in s.vars
  }

  /** Every operation keeps variables 0..255 defined, so GET_VAR, whose
      operand is a byte, always finds its variable. */
  lemma VarsStayDefined(s: Interp, data: seq<byte>, index: int, value: int)
    requires VarsDefined(s)
    ensures VarsDefined(NewInterp())
    ensures VarsDefined(LoadScript(s, data)) && VarsDefined(Reset(s)) && VarsDefined(Stop(s))
    ensures VarsDefined(SetVariable(s, index, value)) && VarsDefined(Step(s).0)
  {
  }

  /** One step of an instruction other than JUMP moves the counter over
      the opcode and its operands, stopping at the end of the code; JUMP
      sets it to its operand.  Only SET_VAR changes a variable (the one
      its first operand names), only GET_VAR grows the stack (by the
      variable its operand names), only LOAD_ROOM changes the room, and
      only STOP_SCRIPT clears the running flag; nothing sets it. */
  lemma StepEffect(s: Interp)
    requires HasByte(s) && VarsDefined(s)
    ensures var op := s.code.value[s.pc];
      var t := Step(s).0;
      var len := |s.code.value|;
      (op != Jump ==> t.pc == Advance(s.pc, 1 + OperandBytes(op), len))
      && (op == Jump && s.pc + 2 < len ==> t.pc == U16(s.code.value, s.pc + 1))
      && (op != SetVar ==> t.vars == s.vars)
      && (op == SetVar && s.pc + 4 < len ==> t.vars == s.vars[s.code.value[s.pc + 1] := U16(s.code.value, s.pc + 2)])
      && (op != GetVar ==> t.stack == s.stack)
      && (op == GetVar && s.pc + 1 < len ==> t.stack == s.stack + [s.vars[s.code.value[s.pc + 1]]])
      && (op != LoadRoom ==> t.room == s.room)
      && (op == LoadRoom && s.pc + 1 < len ==> t.room == s.code.value[s.pc + 1])
      && (op == StopScript ==> !t.running)
      && (op != StopScript ==> t.running == s.running)
  {
    var op := s.code.value[s.pc];
    var s1 := s.(pc := s.pc + 1);
    if op == SetVar {
      ReadWordReads(ReadByte(s1).0);
    } else if op == Jump {
      ReadWordReads(s1);
    }
  }

  /** The loop of `run(maxSteps)` after the running flag is set: step
      while running and fewer than `maxSteps` steps returned true; the
      state and the number of counted steps. */
  function RunLoop(s: Interp, steps: nat, maxSteps: nat): (r: (Interp, nat))
    requires steps <= maxSteps
    decreases maxSteps - steps
    ensures steps <= r.1 <= maxSteps
  {
    if !s.running || steps == maxSteps then (s, steps)
    else
      var (t, more) := Step(s);
      if !more then (t, steps) else RunLoop(t, steps + 1, maxSteps)
  }

  /** `run(maxSteps)`: set the running flag, then loop. */
  function Run(s: Interp, maxSteps: nat): (r: (Interp, nat))
    ensures r.1 <= maxSteps
  {
    RunLoop(s.(running := true), 0, maxSteps)
  }

  /** `k` steps, their answers ignored. */
  function Steps(s: Interp, k: nat): Interp
    decreases k
  {
    if k == 0 then s else Steps(Step(s).0, k - 1)
  }

  /** Each of the first `k` steps from `s` answered true. */
  predicate StepsTrue(s: Interp, k: nat)
  {
    forall j :: 0 <= j < k ==> Step(Steps(s, j)).1
  }

  /** What `run` does in terms of single steps: each of the `n` counted
      steps answered true, and the run ends after them because the limit
      is reached or one more step answered false (that step's effect is
      kept). */
  lemma {:induction false} RunLoopIsSteps(s: Interp, steps: nat, maxSteps: nat)
    requires steps <= maxSteps && s.running
    decreases maxSteps - steps
    ensures var (t, n) := RunLoop(s, steps, maxSteps);
      var k := n - steps;
      StepsTrue(s, k)
      && (n == maxSteps ==> t == Steps(s, k))
      && (n < maxSteps ==> !Step(Steps(s, k)).1 && t == Steps(s, k + 1))
  {
    if steps < maxSteps {
      var (t, more) := Step(s);
      if more {
        RunLoopIsSteps(t, steps + 1, maxSteps);
        var n := RunLoop(s, steps, maxSteps).1;
        assert n == RunLoop(t, steps + 1, maxSteps).1;
        StepsAfterFirst(s, n - steps);
      } else {
        assert Steps(s, 1) == t;
      }
    }
  }

  /** Steps taken after a first step that answered true are the steps
      from the start, one further on. */
  lemma {:induction false} StepsAfterFirst(s: Interp, k: nat)
    requires 0 < k && Step(s).1
    requires StepsTrue(Step(s).0, k - 1)
    ensures StepsTrue(s, k)
    ensures Steps(s, k) == Steps(Step(s).0, k - 1) && Steps(s, k + 1) == Steps(Step(s).0, k)
  {
    var t := Step(s).0;
    forall j | 0 <= j < k
      ensures Step(Steps(s, j)).1
    {
      if j > 0 {
        assert Steps(s, j) == Steps(t, j - 1);
      }
    }
  }

  /** A script that sets variable 5 to 0x1234 and stops: one counted step,
      then STOP_SCRIPT ends the run. */
  lemma RunSetVarThenStop(s: Interp)
    ensures var r := Run(LoadScript(s, [SetVar, 5, 0x34, 0x12, StopScript]), 1000);
      r.1 == 1 && !r.0.running && r.0.vars[5] == 0x1234 && r.0.pc == 5
  {
  }

  /** A script that jumps to itself runs until the step limit. */
  lemma RunJumpLoop(s: Interp, maxSteps: nat)
    ensures var r := Run(LoadScript(s, [Jump, 0, 0]), maxSteps);
      r.1 == maxSteps && r.0.pc == 0
  {
    var t := LoadScript(s, [Jump, 0, 0]).(running := true);
    JumpLoopStays(t, 0, maxSteps);
  }

  lemma {:induction false} JumpLoopStays(t: Interp, steps: nat, maxSteps: nat)
    requires steps <= maxSteps && t.code == Some([Jump, 0, 0]) && t.pc == 0 && t.running
    decreases maxSteps - steps
    ensures RunLoop(t, steps, maxSteps).1 == maxSteps && RunLoop(t, steps, maxSteps).0.pc == 0
  {
    if steps < maxSteps {
      var (u, more) := Step(t);
      assert u.pc == 0 && u.running && u.code == t.code;
      JumpLoopStays(u, steps + 1, maxSteps);
    }
  }
}
