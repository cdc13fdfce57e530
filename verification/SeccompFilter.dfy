// The seccomp whitelist compiler: buildBPF emits a classic BPF program with
// relative jumps; applySeccomp hands it to the kernel with a 16-bit length.
module SeccompFilter {

  // struct sock_filter
  datatype SockFilter = SockFilter(code: nat, jt: nat, jf: nat, k: nat)

  const LD_W_ABS := 0x20 // BPF_LD | BPF_W | BPF_ABS
  const JMP_JEQ_K := 0x15 // BPF_JMP | BPF_JEQ | BPF_K
  const RET_K := 0x06 // BPF_RET | BPF_K

  const ARCH_OFFSET := 4
  const NR_OFFSET := 0
  const AUDIT_ARCH_X86_64 := 0xC000003E
  const RET_KILL_THREAD := 0
  const RET_ALLOW := 0x7FFF0000

  // The part of struct seccomp_data that the filter reads.
  datatype SeccompData = SeccompData(nr: nat, arch: nat)

  datatype Outcome = Returned(action: nat) | Fault

  // The classic BPF machine on these opcodes: pc counts instructions and a is
  // the accumulator. Leaving the program or an unknown instruction is a fault.
  function Exec(prog: seq<SockFilter>, pc: nat, a: nat, data: SeccompData): Outcome
    decreases |prog| - pc
  {
    if pc >= |prog| then Fault
    else
      var ins := prog[pc];
      if ins.code == LD_W_ABS then
        if ins.k == NR_OFFSET then Exec(prog, pc + 1, data.nr, data)
        else if ins.k == ARCH_OFFSET then Exec(prog, pc + 1, data.arch, data)
        else Fault
      else if ins.code == JMP_JEQ_K then
        Exec(prog, pc + 1 + (if a == ins.k then ins.jt else ins.jf), a, data)
      else if ins.code == RET_K then Returned(ins.k)
      else Fault
  }

  function Run(prog: seq<SockFilter>, data: SeccompData): Outcome { Exec(prog, 0, 0, data) }

  // What a kernel-side check of such a program asks for: known instructions,
  // both targets of every jump inside the program, and a return at the end.
  ghost predicate WellFormed(prog: seq<SockFilter>) {
    && prog != [] && prog[|prog| - 1].code == RET_K
    && forall i :: 0 <= i < |prog| ==>
         var ins := prog[i];
         || (ins.code == LD_W_ABS && (ins.k == NR_OFFSET || ins.k == ARCH_OFFSET))
         || (ins.code == JMP_JEQ_K && i + 1 + ins.jt < |prog| && i + 1 + ins.jf < |prog|)
         || ins.code == RET_K
  }

  // A well-formed program ends at one of its returns on every input.
  lemma {:induction false} WellFormedReturns(prog: seq<SockFilter>, pc: nat, a: nat, data: SeccompData)
    requires WellFormed(prog) && pc < |prog|
    ensures Exec(prog, pc, a, data).Returned?
    ensures exists i :: 0 <= i < |prog| && prog[i] == SockFilter(RET_K, prog[i].jt, prog[i].jf, Exec(prog, pc, a, data).action)
    decreases |prog| - pc
  {
    var ins := prog[pc];
    if ins.code == LD_W_ABS {
      assert pc + 1 < |prog|;
      WellFormedReturns(prog, pc + 1, if ins.k == NR_OFFSET then data.nr else data.arch, data);
    } else if ins.code == JMP_JEQ_K {
      WellFormedReturns(prog, pc + 1 + (if a == ins.k then ins.jt else ins.jf), a, data);
    } else {
      assert prog[pc] == SockFilter(RET_K, ins.jt, ins.jf, ins.k);
    }
  }

  // ---- The compiler ----

  const PROLOGUE := [
    SockFilter(LD_W_ABS, 0, 0, ARCH_OFFSET),
    SockFilter(JMP_JEQ_K, 1, 0, AUDIT_ARCH_X86_64),
    SockFilter(RET_K, 0, 0, RET_KILL_THREAD),
    SockFilter(LD_W_ABS, 0, 0, NR_OFFSET)]

  function Checks(whitelist: seq<nat>): (prog: seq<SockFilter>)
    ensures |prog| == 2 * |whitelist|
    ensures forall i :: 0 <= i < |whitelist| ==>
              prog[2 * i] == SockFilter(JMP_JEQ_K, 0, 1, whitelist[i]) && prog[2 * i + 1] == SockFilter(RET_K, 0, 0, RET_ALLOW)
  {
    if whitelist == [] then []
    else
      var n := |whitelist| - 1;
      Checks(whitelist[..n]) +
      [SockFilter(JMP_JEQ_K, 0, 1, whitelist[n]), SockFilter(RET_K, 0, 0, RET_ALLOW)]
  }

  function Compile(whitelist: seq<nat>): seq<SockFilter> {
    PROLOGUE + Checks(whitelist) + [SockFilter(RET_K, 0, 0, RET_KILL_THREAD)]
  }

  method BuildBPF(essentialSyscalls: seq<nat>) returns (filter: seq<SockFilter>)
    ensures filter == Compile(essentialSyscalls)
  {
    filter := [];
    filter := filter + [SockFilter(LD_W_ABS, 0, 0, 4)];
    filter := filter + [SockFilter(JMP_JEQ_K, 1, 0, AUDIT_ARCH_X86_64)];
    filter := filter + [SockFilter(RET_K, 0, 0, RET_KILL_THREAD)];
    filter := filter + [SockFilter(LD_W_ABS, 0, 0, 0)];
    for i := 0 to |essentialSyscalls|
      invariant filter == PROLOGUE + Checks(essentialSyscalls[..i])
    {
      assert essentialSyscalls[..i + 1][..i] == essentialSyscalls[..i];
      filter := filter + [SockFilter(JMP_JEQ_K, 0, 1, essentialSyscalls[i])];
      filter := filter + [SockFilter(RET_K, 0, 0, RET_ALLOW)];
    }
    assert essentialSyscalls[..|essentialSyscalls|] == essentialSyscalls;
    filter := filter + [SockFilter(RET_K, 0, 0, RET_KILL_THREAD)];
  }

  // The instructions of the compiled program, by position.
  lemma CompiledAt(w: seq<nat>)
    ensures |Compile(w)| == 2 * |w| + 5
    ensures forall i :: 0 <= i < 4 ==> Compile(w)[i] == PROLOGUE[i]
    ensures forall i :: 0 <= i < |w| ==>
              Compile(w)[4 + 2 * i] == SockFilter(JMP_JEQ_K, 0, 1, w[i]) &&
              Compile(w)[5 + 2 * i] == SockFilter(RET_K, 0, 0, RET_ALLOW)
    ensures Compile(w)[2 * |w| + 4] == SockFilter(RET_K, 0, 0, RET_KILL_THREAD)
  {
    var c := Checks(w);
    forall i | 0 <= i < |w|
      ensures Compile(w)[4 + 2 * i] == c[2 * i] && Compile(w)[5 + 2 * i] == c[2 * i + 1]
    {}
  }

  lemma CompiledIsWellFormed(w: seq<nat>)
    ensures WellFormed(Compile(w))
  {
    CompiledAt(w);
    var prog := Compile(w);
    forall i | 0 <= i < |prog|
      ensures var ins := prog[i];
              || (ins.code == LD_W_ABS && (ins.k == NR_OFFSET || ins.k == ARCH_OFFSET))
              || (ins.code == JMP_JEQ_K && i + 1 + ins.jt < |prog| && i + 1 + ins.jf < |prog|)
              || ins.code == RET_K
    {
      if 4 <= i < 2 * |w| + 4 {
        var k := (i - 4) / 2;
        assert i == 4 + 2 * k || i == 5 + 2 * k;
      }
    }
  }

  // From the check of entry i on, the program decides membership in w[i..].
  lemma {:induction false} ChecksDecide(w: seq<nat>, i: nat, data: SeccompData)
    requires i <= |w|
    ensures Exec(Compile(w), 4 + 2 * i, data.nr, data) ==
            Returned(if data.nr in w[i..] then RET_ALLOW else RET_KILL_THREAD)
    decreases |w| - i
  {
    CompiledAt(w);
    var prog := Compile(w);
    if i == |w| {
      assert prog[4 + 2 * i] == SockFilter(RET_K, 0, 0, RET_KILL_THREAD);
    } else {
      assert w[i..] == [w[i]] + w[i + 1..];
      assert prog[4 + 2 * i] == SockFilter(JMP_JEQ_K, 0, 1, w[i]);
      assert prog[5 + 2 * i] == SockFilter(RET_K, 0, 0, RET_ALLOW);
      if data.nr == w[i] {
        assert Exec(prog, 4 + 2 * i, data.nr, data) == Exec(prog, 5 + 2 * i, data.nr, data);
      } else {
        ChecksDecide(w, i + 1, data);
        assert Exec(prog, 4 + 2 * i, data.nr, data) == Exec(prog, 4 + 2 * (i + 1), data.nr, data);
      }
    }
  }

  // Compiler correctness: x86_64 calls on the whitelist are allowed, every
  // other call on every architecture is killed.
  lemma FilterCorrect(w: seq<nat>, data: SeccompData)
    ensures Run(Compile(w), data) ==
            Returned(if data.arch == AUDIT_ARCH_X86_64 && data.nr in w then RET_ALLOW else RET_KILL_THREAD)
  {
    CompiledAt(w);
    var prog := Compile(w);
    assert Run(prog, data) == Exec(prog, 1, data.arch, data);
    if data.arch == AUDIT_ARCH_X86_64 {
      assert Exec(prog, 1, data.arch, data) == Exec(prog, 3, data.arch, data);
      assert Exec(prog, 3, data.arch, data) == Exec(prog, 4, data.nr, data);
      ChecksDecide(w, 0, data);
      assert w[0..] == w;
    } else {
      assert Exec(prog, 1, data.arch, data) == Exec(prog, 2, data.arch, data);
    }
  }

  // ---- The length field ----

  // uint16(len(filter))
  function LenField(filter: seq<SockFilter>): nat { |filter| % 0x1_0000 }

  // The program the kernel is told about.
  function Installed(filter: seq<SockFilter>): seq<SockFilter> { filter[..LenField(filter)] }

  // How many list entries keep both their instructions in the first n.
  function Kept(n: nat): nat { if n < 4 then 0 else (n - 4) / 2 }

  lemma {:induction false} CutChecksDecide(w: seq<nat>, n: nat, i: nat, data: SeccompData)
    requires n < |Compile(w)| && i <= Kept(n) <= |w|
    ensures Exec(Compile(w)[..n], 4 + 2 * i, data.nr, data) ==
            if data.nr in w[i..Kept(n)] then Returned(RET_ALLOW) else Fault
    decreases |w| - i
  {
    CompiledAt(w);
    var prog := Compile(w)[..n];
    if 4 + 2 * i < n {
      assert prog[4 + 2 * i] == SockFilter(JMP_JEQ_K, 0, 1, w[i]);
      if i == Kept(n) {
        assert n == 5 + 2 * i;
      } else {
        assert prog[5 + 2 * i] == SockFilter(RET_K, 0, 0, RET_ALLOW);
        assert w[i..Kept(n)] == [w[i]] + w[i + 1..Kept(n)];
        CutChecksDecide(w, n, i + 1, data);
        assert Exec(prog, 4 + 2 * i, data.nr, data) ==
               Exec(prog, if data.nr == w[i] then 5 + 2 * i else 4 + 2 * (i + 1), data.nr, data);
      }
    }
  }

  // What a program cut to its first n instructions does: it has no default rule
  // left, so an x86_64 call is allowed when it is among the entries kept whole
  // and runs off the end otherwise.
  lemma CutProgramExactly(w: seq<nat>, n: nat, data: SeccompData)
    requires n < |Compile(w)|
    ensures Kept(n) <= |w|
    ensures data.arch == AUDIT_ARCH_X86_64 ==>
              Run(Compile(w)[..n], data) == if data.nr in w[..Kept(n)] then Returned(RET_ALLOW) else Fault
    ensures data.arch != AUDIT_ARCH_X86_64 ==>
              Run(Compile(w)[..n], data) == if n >= 3 then Returned(RET_KILL_THREAD) else Fault
  {
    CompiledAt(w);
    var prog := Compile(w)[..n];
    if n > 0 {
      assert prog[0] == PROLOGUE[0];
      assert Run(prog, data) == Exec(prog, 1, data.arch, data);
    }
    if n > 1 {
      assert prog[1] == PROLOGUE[1];
      assert Run(prog, data) == Exec(prog, if data.arch == AUDIT_ARCH_X86_64 then 3 else 2, data.arch, data);
    }
    if n > 2 {
      assert prog[2] == PROLOGUE[2];
    }
    if n > 3 && data.arch == AUDIT_ARCH_X86_64 {
      assert prog[3] == PROLOGUE[3];
      assert Run(prog, data) == Exec(prog, 4, data.nr, data);
      CutChecksDecide(w, n, 0, data);
      assert w[0..Kept(n)] == w[..Kept(n)];
    }
  }

  // The 16-bit length is right, and with it the installed filter, exactly for
  // whitelists of at most 32,765 entries. A longer one installs a filter that
  // allows only the entries the length still covers; every other x86_64 call
  // runs off its end, listed or not.
  lemma InstalledExactlyWhen(w: seq<nat>)
    ensures Installed(Compile(w)) == Compile(w) <==> |w| <= 32765
    ensures |w| > 32765 ==> Kept(LenField(Compile(w))) <= |w| && forall nr: nat ::
              Run(Installed(Compile(w)), SeccompData(nr, AUDIT_ARCH_X86_64)) ==
              if nr in w[..Kept(LenField(Compile(w)))] then Returned(RET_ALLOW) else Fault
  {
    CompiledAt(w);
    if |w| > 32765 {
      CutProgramExactly(w, LenField(Compile(w)), SeccompData(0, AUDIT_ARCH_X86_64));
      forall nr: nat
        ensures Run(Installed(Compile(w)), SeccompData(nr, AUDIT_ARCH_X86_64)) ==
                if nr in w[..Kept(LenField(Compile(w)))] then Returned(RET_ALLOW) else Fault
      {
        CutProgramExactly(w, LenField(Compile(w)), SeccompData(nr, AUDIT_ARCH_X86_64));
      }
    }
  }
}
