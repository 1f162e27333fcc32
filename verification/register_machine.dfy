/**
 * `RegisterAssemblyMachine`: the skeleton of an interpreter with named
 * `long` registers, a program of instruction strings and an instruction
 * pointer. The instruction set itself belongs to subclasses (`execute`);
 * here it is a function parameter that may change the registers and the
 * instruction pointer (through `write` and `jump`) and may yield.
 */
module RegisterMachine {
  import opened Wrappers
  import opened Numeric
  import Text
  import LO = LabeledObject

  datatype State = Idle | Running | Yielded | Ended

  datatype Machine = Machine(id: LO.Labeled, mem: map<string, int>, program: seq<string>, ip: int, state: State)

  /**
   * What one `execute` call leaves behind: the registers, the instruction
   * pointer, and whether it ended with a `YieldException`.
   */
  datatype Effect = Effect(mem: map<string, int>, ip: int, yielded: bool)

  /** The constructor: a labelled object, Idle, with IP -1 and no registers. */
  function New(name: Option<string>): (r: Result<Machine>)
    ensures r.Ok? <==> name.Some? && |name.value| > 0
    ensures r.Err? ==> r.error == IllegalArgument
    ensures r.Ok? ==> r.value.state == Idle && r.value.ip == -1 && r.value.mem == map[]
    ensures r.Ok? ==> r.value.id.name == name.value
  {
    var id :- LO.New(name);
    Ok(Machine(id, map[], [], -1, Idle))
  }

  /**
   * `load(input)`: only an Idle machine can load, and only a non-empty
   * program; it is then Yielded at instruction 0.
   */
  function Load(m: Machine, input: seq<string>): (r: Result<Machine>)
    ensures r.Err? <==> m.state != Idle || |input| == 0
    ensures r.Err? ==> r.error == Runtime
    ensures r.Ok? ==> r.value == m.(program := input, ip := 0, state := Yielded)
  {
    if m.state != Idle then Err(Runtime)
    else if |input| == 0 then Err(Runtime)
    else Ok(m.(program := input, ip := 0, state := Yielded))
  }

  /** The instruction pointer lies on an instruction. */
  predicate OnProgram(m: Machine)
  {
    0 <= m.ip < |m.program|
  }

  /**
   * The `while` loop of `resume`, run for at most `fuel` instructions:
   * fetch `program[IP++]`, execute it, stop Yielded on a yield and Ended
   * once the pointer leaves the program. A machine still Running has used
   * up the fuel.
   */
  function Steps(m: Machine, exec: (Machine, string) -> Effect, fuel: nat): (r: Machine)
    requires m.state == Running
    ensures r.id == m.id && r.program == m.program
    ensures r.state == Yielded || r.state == Ended || r.state == Running
    ensures r.state == Ended ==> !OnProgram(r)
    ensures r.state == Running ==> OnProgram(r)
    decreases fuel
  {
    if !OnProgram(m) then m.(state := Ended)
    else if fuel == 0 then m
    else
      var e := exec(m.(ip := m.ip + 1), m.program[m.ip]);
      var next := m.(mem := e.mem, ip := e.ip);
      if e.yielded then next.(state := Yielded)
      else Steps(next, exec, fuel - 1)
  }

  /** `resume()`: only a Yielded machine resumes; it runs until it yields or ends. */
  function Resume(m: Machine, exec: (Machine, string) -> Effect, fuel: nat): (r: Result<Machine>)
    ensures r.Err? <==> m.state != Yielded
    ensures r.Err? ==> r.error == Runtime
    ensures r.Ok? ==> r.value.id == m.id && r.value.program == m.program
    ensures r.Ok? ==> r.value.state == Yielded || r.value.state == Ended || r.value.state == Running
    ensures r.Ok? && r.value.state == Ended ==> !OnProgram(r.value)
    ensures r.Ok? && r.value.state == Running ==> OnProgram(r.value)
  {
    if m.state != Yielded then Err(Runtime)
    else Ok(Steps(m.(state := Running), exec, fuel))
  }

  /** `run(input)`: load, then resume. */
  function Run(m: Machine, input: seq<string>, exec: (Machine, string) -> Effect, fuel: nat): (r: Result<Machine>)
    ensures r.Err? <==> m.state != Idle || |input| == 0
    ensures r.Ok? ==> r.value.program == input && r.value.id == m.id
    ensures r.Ok? ==> r.value.state == Yielded || r.value.state == Ended || r.value.state == Running
  {
    var loaded :- Load(m, input);
    Resume(loaded, exec, fuel)
  }

  /** A register name that `Long.parseLong` accepts is a literal. */
  predicate IsLiteral(r: string)
  {
    Text.ParseInt(r, LongMin, LongMax).Ok?
  }

  /** `read(r)`: a literal's value, otherwise the register's, 0 when never written. */
  function Read(m: Machine, r: string): (v: int)
    ensures IsLiteral(r) ==> v == Text.ParseInt(r, LongMin, LongMax).value
    ensures !IsLiteral(r) && r in m.mem ==> v == m.mem[r]
    ensures !IsLiteral(r) && r !in m.mem ==> v == 0
  {
    var lit := Text.ParseInt(r, LongMin, LongMax);
    if lit.Ok? then lit.value
    else if r in m.mem then m.mem[r] else 0
  }

  /** `write(r, value)`. */
  function Write(m: Machine, r: string, value: int): (m': Machine)
    ensures m'.mem.Keys == m.mem.Keys + {r}
    ensures m' == m.(mem := m'.mem)
  {
    m.(mem := m.mem[r := value])
  }

  /** `jump(offset)`: `IP += offset - 1`, narrowed back to `int`. */
  function Jump(m: Machine, offset: int): (m': Machine)
    ensures m' == m.(ip := m'.ip)
    ensures IntMin <= m.ip + offset - 1 <= IntMax ==> m'.ip == m.ip + offset - 1
  {
    m.(ip := WrapInt(m.ip + offset - 1))
  }

  /** `jumpIf(condition, offset)`. */
  function JumpIf(m: Machine, condition: bool, offset: int): (m': Machine)
    ensures !condition ==> m' == m
    ensures condition ==> m' == Jump(m, offset)
  {
    if condition then Jump(m, offset) else m
  }

  /** A written register reads back the written value; the others read as before. */
  lemma WriteThenRead(m: Machine, r: string, value: int, other: string)
    requires !IsLiteral(r)
    ensures Read(Write(m, r, value), r) == value
    ensures other != r ==> Read(Write(m, r, value), other) == Read(m, other)
  {
  }

  /** A printed number reads as itself, whatever the registers hold. */
  lemma ReadLiteral(m: Machine, n: int)
    requires LongMin <= n <= LongMax
    ensures Read(m, Text.IntToString(n)) == n
  {
    Text.ParseIntToString(n, LongMin, LongMax);
  }

  /**
   * While `execute` runs, IP already points past the instruction; so
   * `jump(o)` by the instruction at index i makes the loop fetch the
   * instruction at i + o next.
   */
  lemma JumpLandsAtOffset(m: Machine, exec: (Machine, string) -> Effect, fuel: nat, o: int)
    requires m.state == Running && OnProgram(m) && fuel > 0
    requires IntMin <= m.ip + o <= IntMax
    requires exec(m.(ip := m.ip + 1), m.program[m.ip]) == Effect(m.mem, Jump(m.(ip := m.ip + 1), o).ip, false)
    ensures Steps(m, exec, fuel) == Steps(m.(ip := m.ip + o), exec, fuel - 1)
  {
  }

  /**
   * An instruction set that never jumps and never yields runs a loaded
   * program straight through: with enough fuel the machine Ends with IP
   * just past the last instruction.
   */
  lemma {:induction false} StraightLineEnds(m: Machine, exec: (Machine, string) -> Effect, fuel: nat)
    requires forall n: Machine, s: string :: exec(n, s).ip == n.ip && !exec(n, s).yielded
    requires m.state == Running && 0 <= m.ip <= |m.program| && fuel >= |m.program| - m.ip
    ensures Steps(m, exec, fuel).state == Ended
    ensures Steps(m, exec, fuel).ip == |m.program|
    decreases fuel
  {
    if OnProgram(m) {
      var e := exec(m.(ip := m.ip + 1), m.program[m.ip]);
      assert e.ip == m.ip + 1 && !e.yielded;
      StraightLineEnds(m.(mem := e.mem, ip := e.ip), exec, fuel - 1);
    }
  }

  /** Running a non-empty program on a fresh machine under such an instruction set ends it. */
  lemma RunStraightLine(name: string, input: seq<string>, exec: (Machine, string) -> Effect, fuel: nat)
    requires |name| > 0 && |input| > 0 && fuel >= |input|
    requires forall n: Machine, s: string :: exec(n, s).ip == n.ip && !exec(n, s).yielded
    ensures New(Some(name)).Ok?
    ensures Run(New(Some(name)).value, input, exec, fuel).Ok?
    ensures Run(New(Some(name)).value, input, exec, fuel).value.state == Ended
    ensures Run(New(Some(name)).value, input, exec, fuel).value.ip == |input|
  {
    var m := New(Some(name)).value;
    var loaded := Load(m, input).value;
    StraightLineEnds(loaded.(state := Running), exec, fuel);
  }
}
