/** The shell's pipeline builder: from the last command to the first, it makes a pipe, forks a child, wires
the child's standard descriptors, and closes the ends that the shell itself no longer needs. */
module Pipeline {
  import opened StringVector

  // ----- The commands of a line -----

  /** A line cut at its bars. */
  function Split<T(==)>(tokens: seq<T>, bar: T): (commands: seq<seq<T>>)
    ensures |commands| == Occurrences(tokens, bar) + 1
  {
    if tokens == [] then [[]]
    else
      var rest := Split(tokens[1..], bar);
      if tokens[0] == bar then [[]] + rest else [[tokens[0]] + rest[0]] + rest[1..]
  }

  /** Commands with bars between them. */
  function Joined<T>(commands: seq<seq<T>>, bar: T): seq<T>
    requires commands != []
  {
    if |commands| == 1 then commands[0] else commands[0] + [bar] + Joined(commands[1..], bar)
  }

  /** The commands are the pieces of the line: joined they give it back... */
  lemma {:induction false} SplitJoins<T>(tokens: seq<T>, bar: T)
    ensures Joined(Split(tokens, bar), bar) == tokens
  {
    if tokens != [] {
      var rest := Split(tokens[1..], bar);
      SplitJoins(tokens[1..], bar);
      if tokens[0] == bar {
        JoinedCons([], rest, bar);
      } else {
        JoinedHead(tokens[0], rest, bar);
      }
    }
  }

  lemma JoinedCons<T>(first: seq<T>, rest: seq<seq<T>>, bar: T)
    requires rest != []
    ensures Joined([first] + rest, bar) == first + [bar] + Joined(rest, bar)
  {
    assert ([first] + rest)[1..] == rest;
  }

  lemma JoinedHead<T>(token: T, rest: seq<seq<T>>, bar: T)
    requires rest != []
    ensures Joined([[token] + rest[0]] + rest[1..], bar) == [token] + Joined(rest, bar)
  {
    var all := [[token] + rest[0]] + rest[1..];
    assert all[0] == [token] + rest[0] && all[1..] == rest[1..];
    if |rest| > 1 {
      Regroup([token], rest[0], [bar], Joined(rest[1..], bar));
    }
  }

  lemma Regroup<T>(a: seq<T>, b: seq<T>, c: seq<T>, d: seq<T>)
    ensures (a + b) + c + d == a + (b + c + d)
  {
  }

  /** ... and none contains a bar. */
  lemma {:induction false} SplitPure<T>(tokens: seq<T>, bar: T, k: nat)
    requires k < |Split(tokens, bar)|
    ensures bar !in Split(tokens, bar)[k]
  {
    if tokens != [] {
      var rest := Split(tokens[1..], bar);
      if tokens[0] == bar {
        if k > 0 {
          SplitPure(tokens[1..], bar, k - 1);
        }
      } else {
        SplitPure(tokens[1..], bar, k);
        assert bar !in [tokens[0]] + rest[0] || k > 0;
      }
    }
  }

  /** Without bars there is one command. */
  lemma {:induction false} SplitPlain<T>(tokens: seq<T>, bar: T)
    requires bar !in tokens
    ensures Split(tokens, bar) == [tokens]
  {
    if tokens != [] {
      SplitPlain(tokens[1..], bar);
      assert [tokens[0]] + tokens[1..] == tokens;
    }
  }

  /** The last command is what follows the last bar. */
  lemma {:induction false} SplitLast<T>(tokens: seq<T>, bar: T, k: nat)
    requires k < |tokens| && tokens[k] == bar && bar !in tokens[k + 1..]
    ensures Split(tokens, bar) == Split(tokens[..k], bar) + [tokens[k + 1..]]
  {
    if k == 0 {
      SplitPlain(tokens[1..], bar);
      assert tokens[..0] == [];
    } else {
      var rest := tokens[1..];
      assert rest[k - 1 + 1..] == tokens[k + 1..] && rest[..k - 1] == tokens[..k][1..];
      SplitLast(rest, bar, k - 1);
      assert Split(rest, bar) == Split(rest[..k - 1], bar) + [tokens[k + 1..]];
    }
  }

  // ----- Descriptors -----

  /** What a descriptor stands for: something inherited, or an end of pipe k. */
  datatype End = Inherited(what: int) | ReadEnd(k: nat) | WriteEnd(k: nat)

  type Table = map<nat, End>

  predicate Holds(t: Table, e: End) {
    exists fd :: fd in t && t[fd] == e
  }

  /** The shell's own table before the line, any descriptors open or closed: no pipe of this line. */
  predicate IsBase(t: Table) {
    forall fd :: fd in t ==> t[fd].Inherited?
  }

  /** The lowest descriptor not in use. */
  predicate IsLowest(t: Table, fd: nat) {
    fd !in t && forall d :: 0 <= d < fd ==> d in t
  }

  /** A descriptor not in use, and not the lowest. */
  predicate IsHigher(t: Table, fd: nat) {
    fd !in t && exists d: nat :: d < fd && d !in t
  }

  /** A descriptor is open in neither table, or the same in both. */
  predicate SameAt(t: Table, u: Table, fd: nat) {
    (fd in t <==> fd in u) && (fd in t ==> t[fd] == u[fd])
  }

  class Process {
    var table: Table

    constructor (t: Table)
      ensures table == t
    {
      table := t;
    }

    /** The lowest descriptor not in use, as the system hands them out. */
    method Unused() returns (fd: nat)
      ensures IsLowest(table, fd)
    {
      fd := 0;
      while fd in table
        invariant forall d :: 0 <= d < fd ==> d in table
        decreases |set d | d in table && d >= fd|
      {
        ghost var before := set d | d in table && d >= fd;
        ghost var after := set d | d in table && d >= fd + 1;
        assert before == after + {fd};
        fd := fd + 1;
      }
    }

    method Pipe(k: nat) returns (r: nat, w: nat)
      modifies this
      ensures IsLowest(old(table), r) && r < w && w !in old(table)
      ensures table == old(table)[r := ReadEnd(k)][w := WriteEnd(k)]
    {
      r := Unused();
      table := table[r := ReadEnd(k)];
      w := Unused();
      table := table[w := WriteEnd(k)];
    }

    method Close(fd: nat)
      requires fd in table
      modifies this
      ensures table == old(table) - {fd}
    {
      table := table - {fd};
    }

    method Dup2(from: nat, to: nat)
      requires from in table
      modifies this
      ensures table == old(table)[to := old(table)[from]]
    {
      table := table[to := table[from]];
    }

    method Fork() returns (child: Process)
      ensures fresh(child) && child.table == table
    {
      child := new Process(table);
    }
  }

  // ----- The pipeline -----

  /** What a child runs, and with which descriptors. */
  datatype Program<T> = Program(table: Table, command: seq<T>)

  /** Child i of a line with n pipes reads from pipe i and writes to pipe i - 1, where they exist, and holds
  no other end of any pipe; its other descriptors are the shell's. Standard input without a pipe is the shell's. */
  ghost predicate Plumbed(t: Table, base: Table, n: nat, i: nat) {
    && (if i < n then 0 in t && t[0] == ReadEnd(i) else SameAt(t, base, 0))
    && (i > 0 ==> 1 in t && t[1] == WriteEnd(i - 1))
    && (forall k :: Holds(t, ReadEnd(k)) <==> i < n && k == i)
    && (forall k :: Holds(t, WriteEnd(k)) <==> i > 0 && k == i - 1)
    && (forall fd :: fd in base && fd > 1 ==> fd in t && t[fd] == base[fd])
    && (forall fd :: fd in t && t[fd].Inherited? ==> fd in base && t[fd] == base[fd])
  }

  /** Standard output without a pipe is the shell's, too. */
  ghost predicate Wired(t: Table, base: Table, n: nat, i: nat) {
    Plumbed(t, base, n, i) && (i == 0 ==> SameAt(t, base, 1))
  }

  /** The shells with which the last command of a line with n pipes gets a wrong standard output: the read end
  of its pipe took the place of the closed descriptor. */
  predicate TakesOutput(base: Table, n: nat) {
    n > 0 && 0 in base && 1 !in base
  }

  /** What the child is left with, for every shell. */
  ghost predicate Built(t: Table, base: Table, n: nat, i: nat) {
    && Plumbed(t, base, n, i)
    && (i == 0 ==> if TakesOutput(base, n) then 1 in t && t[1] == ReadEnd(0) else SameAt(t, base, 1))
  }

  /** The shell's table between two children: its own, and the write end of the last pipe. */
  ghost predicate Between(t: Table, base: Table, i: nat, pipeFds: seq<nat>)
    requires i > 0 ==> 2 * i <= |pipeFds|
  {
    if i == 0 then t == base
    else IsHigher(base, pipeFds[2 * i - 1]) && t == base[pipeFds[2 * i - 1] := WriteEnd(i - 1)]
  }

  /** The shell's table when child i is made: the new pipe's read end is always the lowest descriptor that the
  shell had not in use before the line. */
  ghost predicate AtFork(t: Table, base: Table, n: nat, i: nat, pipeFds: seq<nat>)
    requires |pipeFds| == 2 * n && i <= n
  {
    if i == n then Between(t, base, i, pipeFds)
    else
      exists before: Table :: Between(before, base, i, pipeFds)
        && IsLowest(base, pipeFds[2 * i]) && pipeFds[2 * i] !in before
        && IsHigher(base, pipeFds[2 * i + 1]) && pipeFds[2 * i + 1] !in before
        && t == before[pipeFds[2 * i] := ReadEnd(i)][pipeFds[2 * i + 1] := WriteEnd(i)]
  }

  /** The child's side: it drops the write end that only the shell needs, and puts its ends in place of the
  standard descriptors. */
  method WireChild(child: Process, n: nat, i: nat, pipeFds: array<nat>, readFromPipe: int, writeToPipe: int,
                   ghost base: Table)
    requires IsBase(base) && pipeFds.Length == 2 * n && i <= n && AtFork(child.table, base, n, i, pipeFds[..])
    requires readFromPipe == if i < n then 2 * i else -1
    requires writeToPipe == if i > 0 then 2 * i - 1 else -1
    modifies child
    ensures Built(child.table, base, n, i)
  {
    ghost var t := child.table;
    ForkedTable(t, base, n, i, pipeFds[..]);
    if i != n {
      child.Close(pipeFds[2 * i + 1]);
    }
    if readFromPipe >= 0 {
      child.Dup2(pipeFds[readFromPipe], 0);
    }
    if writeToPipe >= 0 {
      child.Dup2(pipeFds[writeToPipe], 1);
    }
    if i < n {
      ReadingChild(t, base, n, i, pipeFds[2 * i], pipeFds[2 * i + 1], if i > 0 then pipeFds[2 * i - 1] else 0);
    } else {
      LastChild(t, base, n, if i > 0 then pipeFds[2 * i - 1] else 0);
    }
  }

  /** The table at the fork of a child that reads from a pipe: the new ends r and w, and the last write end. */
  ghost predicate ForkedReading(t: Table, base: Table, i: nat, r: nat, w: nat, last: nat) {
    && IsLowest(base, r) && r < w && IsHigher(base, w) && (i > 0 ==> r < last && IsHigher(base, last) && last != w)
    && t == if i > 0 then base[last := WriteEnd(i - 1)][r := ReadEnd(i)][w := WriteEnd(i)]
            else base[r := ReadEnd(i)][w := WriteEnd(i)]
  }

  /** Pipe ends held after wiring. */
  lemma ReadingChild(t: Table, base: Table, n: nat, i: nat, r: nat, w: nat, last: nat)
    requires IsBase(base) && i < n && ForkedReading(t, base, i, r, w, last)
    ensures var u := (t - {w})[0 := ReadEnd(i)];
            Built(if i > 0 then u[1 := WriteEnd(i - 1)] else u, base, n, i)
  {
    var u := (t - {w})[0 := ReadEnd(i)];
    var v := if i > 0 then u[1 := WriteEnd(i - 1)] else u;
    assert v[0] == ReadEnd(i);
    assert i > 0 ==> v[1] == WriteEnd(i - 1);
  }

  lemma LastChild(t: Table, base: Table, n: nat, last: nat)
    requires IsBase(base) && (n > 0 ==> IsHigher(base, last))
    requires t == if n > 0 then base[last := WriteEnd(n - 1)] else base
    ensures Built(if n > 0 then t[1 := WriteEnd(n - 1)] else t, base, n, n)
  {
    var v := if n > 0 then t[1 := WriteEnd(n - 1)] else t;
    assert n > 0 ==> v[1] == WriteEnd(n - 1);
  }

  /** The table at the fork, and which of its descriptors are lower. */
  lemma ForkedTable(t: Table, base: Table, n: nat, i: nat, pipeFds: seq<nat>)
    requires |pipeFds| == 2 * n && i <= n && AtFork(t, base, n, i, pipeFds)
    ensures i < n ==>
              ForkedReading(t, base, i, pipeFds[2 * i], pipeFds[2 * i + 1], if i > 0 then pipeFds[2 * i - 1] else 0)
    ensures i == n ==> t == (if n > 0 then base[pipeFds[2 * n - 1] := WriteEnd(n - 1)] else base)
    ensures i == n && n > 0 ==> IsHigher(base, pipeFds[2 * n - 1])
  {
    if i < n {
      HigherIsAbove(base, pipeFds[2 * i], pipeFds[2 * i + 1]);
      if i > 0 {
        HigherIsAbove(base, pipeFds[2 * i], pipeFds[2 * i - 1]);
      }
    }
  }

  lemma HigherIsAbove(t: Table, r: nat, w: nat)
    requires IsLowest(t, r) && IsHigher(t, w)
    ensures r < w
  {
  }

  /** The shell's side after making child i: it closes the ends that only its children need. */
  method CloseInShell(shell: Process, n: nat, i: nat, pipeFds: array<nat>, ghost base: Table)
    requires pipeFds.Length == 2 * n && i <= n && AtFork(shell.table, base, n, i, pipeFds[..])
    modifies shell
    ensures if i == n then shell.table == base else Between(shell.table, base, i + 1, pipeFds[..])
  {
    ForkedTable(shell.table, base, n, i, pipeFds[..]);
    if i > 0 {
      shell.Close(pipeFds[2 * (i - 1) + 1]);
    }
    if i != n {
      shell.Close(pipeFds[2 * i]);
    }
  }

  /** Runs a line. The children come in the order of their making, last command first. */
  method RunPipelinedCommands<T(0, ==)>(tokens: StrVec<T>, bar: T, shell: Process) returns (children: seq<Program<T>>)
    requires tokens.Valid() && IsBase(shell.table) && shell !in tokens.Repr
    modifies tokens`length, shell
    ensures shell.table == old(shell.table)
    ensures AllBuilt(children, old(shell.table), old(Split(tokens.Contents(), bar)))
    ensures AllWired(children, old(shell.table), old(Split(tokens.Contents(), bar)))
        <==> !TakesOutput(old(shell.table), old(Occurrences(tokens.Contents(), bar)))
  {
    var numPipes := tokens.NumOccurrences(bar);
    var currPipeIdx := -1;
    if numPipes != 0 {
      currPipeIdx := tokens.FindLast(bar);
    }
    StartRemaining(tokens.Contents(), bar, currPipeIdx);
    ghost var base, commands := shell.table, Split(tokens.Contents(), bar);
    children := BuildCommands(tokens, bar, shell, numPipes, currPipeIdx, commands);
    WiredUnlessTaken(children, base, commands);
  }

  /** The builder's loop. */
  method BuildCommands<T(0, ==)>(tokens: StrVec<T>, bar: T, shell: Process, numPipes: nat, lastPipeIdx: int,
                         ghost commands: seq<seq<T>>)
    returns (children: seq<Program<T>>)
    requires tokens.Valid() && IsBase(shell.table) && shell !in tokens.Repr && |commands| == numPipes + 1
    requires Remaining(tokens.Contents(), bar, commands, numPipes, lastPipeIdx)
    modifies tokens`length, shell
    ensures shell.table == old(shell.table) && AllBuilt(children, old(shell.table), commands)
  {
    ghost var base := shell.table;
    var pipeFds := new nat[2 * numPipes];
    var currPipeIdx := lastPipeIdx;
    children := [];
    var i := 0;
    while i <= numPipes
      invariant 0 <= i <= numPipes + 1 && tokens.Valid() && |children| == i && pipeFds.Length == 2 * numPipes
      invariant EachBuilt(children, base, commands)
      invariant i <= numPipes ==> Between(shell.table, base, i, pipeFds[..])
      invariant i <= numPipes ==> Remaining(tokens.Contents(), bar, commands, numPipes - i, currPipeIdx)
      invariant i == numPipes + 1 ==> shell.table == base
    {
      var child;
      child, currPipeIdx := BuildCommand(tokens, bar, shell, numPipes, i, pipeFds, currPipeIdx, base, commands);
      OneMoreBuilt(children, child, base, commands);
      children := children + [child];
      i := i + 1;
    }
  }

  /** One child for each command, the last command's first, and all of them wired. */
  ghost predicate AllWired<T>(children: seq<Program<T>>, base: Table, commands: seq<seq<T>>) {
    && |children| == |commands|
    && forall i :: 0 <= i < |children| ==>
      Runs(children[i], commands, i) && Wired(children[i].table, base, |commands| - 1, i)
  }

  ghost predicate AllBuilt<T>(children: seq<Program<T>>, base: Table, commands: seq<seq<T>>) {
    |children| == |commands| && EachBuilt(children, base, commands)
  }

  ghost predicate EachBuilt<T>(children: seq<Program<T>>, base: Table, commands: seq<seq<T>>) {
    forall i :: 0 <= i < |children| ==> IsBuilt(children[i], base, commands, i)
  }

  ghost predicate IsBuilt<T>(child: Program<T>, base: Table, commands: seq<seq<T>>, i: nat) {
    Runs(child, commands, i) && Built(child.table, base, |commands| - 1, i)
  }

  predicate Runs<T(==)>(child: Program<T>, commands: seq<seq<T>>, i: nat) {
    i < |commands| && child.command == commands[|commands| - 1 - i]
  }

  lemma OneMoreBuilt<T>(children: seq<Program<T>>, child: Program<T>, base: Table, commands: seq<seq<T>>)
    requires EachBuilt(children, base, commands) && IsBuilt(child, base, commands, |children|)
    ensures EachBuilt(children + [child], base, commands)
  {
  }

  /** All children have the right standard descriptors exactly when the line has one command, or the shell's
  standard input is closed or its standard output open. */
  lemma WiredUnlessTaken<T>(children: seq<Program<T>>, base: Table, commands: seq<seq<T>>)
    requires commands != [] && AllBuilt(children, base, commands)
    ensures AllWired(children, base, commands) <==> |commands| == 1 || 0 !in base || 1 in base
    ensures forall i :: 0 < i < |children| ==> Wired(children[i].table, base, |commands| - 1, i)
  {
    assert IsBuilt(children[0], base, commands, 0);
    forall i | 0 <= i < |children|
      ensures Runs(children[i], commands, i) && (i > 0 ==> Wired(children[i].table, base, |commands| - 1, i))
    {
      assert IsBuilt(children[i], base, commands, i);
    }
  }

  /** Two commands, from a shell with standard input open and nothing else: the last one's standard output is
  the read end of its own pipe. */
  lemma ClosedOutput<T>(children: seq<Program<T>>, commands: seq<seq<T>>)
    requires |commands| == 2 && AllBuilt(children, map[0 := Inherited(0)], commands)
    ensures var t := children[0].table; 0 in t && 1 in t && t[0] == t[1] == ReadEnd(0)
    ensures !AllWired(children, map[0 := Inherited(0)], commands)
  {
    assert IsBuilt(children[0], map[0 := Inherited(0)], commands, 0);
  }

  /** One turn of the builder's loop: a new pipe except for the first command of the line, a child, and the
  closing of the ends that the shell no longer needs. */
  method BuildCommand<T(0, ==)>(tokens: StrVec<T>, bar: T, shell: Process, n: nat, i: nat, pipeFds: array<nat>,
                        currPipeIdx: int, ghost base: Table, ghost commands: seq<seq<T>>)
    returns (child: Program<T>, nextPipeIdx: int)
    requires tokens.Valid() && IsBase(base) && shell !in tokens.Repr && pipeFds !in tokens.Repr && |commands| == n + 1
    requires i <= n
    requires pipeFds.Length == 2 * n && Between(shell.table, base, i, pipeFds[..])
    requires Remaining(tokens.Contents(), bar, commands, n - i, currPipeIdx)
    modifies tokens`length, shell, pipeFds
    ensures tokens.Valid() && IsBuilt(child, base, commands, i)
    ensures i < n ==> Between(shell.table, base, i + 1, pipeFds[..])
    ensures i < n ==> Remaining(tokens.Contents(), bar, commands, n - i - 1, nextPipeIdx)
    ensures i == n ==> shell.table == base
  {
    var writeToPipe: int := if i > 0 then 2 * i - 1 else -1;
    var readFromPipe := MakePipe(shell, n, i, pipeFds, base);
    child := MakeChild(tokens, bar, shell, n, i, pipeFds, readFromPipe, writeToPipe, currPipeIdx, base, commands);
    CloseInShell(shell, n, i, pipeFds, base);
    nextPipeIdx := currPipeIdx;
    if i != n {
      nextPipeIdx := DropCommand(tokens, bar, n - i, currPipeIdx, commands);
    }
  }

  /** The fork, and the child's side of it. */
  method MakeChild<T(0, ==)>(tokens: StrVec<T>, bar: T, shell: Process, n: nat, i: nat, pipeFds: array<nat>,
                             readFromPipe: int, writeToPipe: int, currPipeIdx: int, ghost base: Table,
                             ghost commands: seq<seq<T>>)
    returns (program: Program<T>)
    requires tokens.Valid() && IsBase(base) && pipeFds.Length == 2 * n && i <= n && n + 1 == |commands|
    requires AtFork(shell.table, base, n, i, pipeFds[..])
    requires Remaining(tokens.Contents(), bar, commands, n - i, currPipeIdx)
    requires readFromPipe == if i < n then 2 * i else -1
    requires writeToPipe == if i > 0 then 2 * i - 1 else -1
    ensures IsBuilt(program, base, commands, i)
  {
    var command := CommandOf(tokens, bar, n - i, currPipeIdx, commands);
    var child := shell.Fork();
    WireChild(child, n, i, pipeFds, readFromPipe, writeToPipe, base);
    program := Program(child.table, command);
  }

  method CommandOf<T(0, ==)>(tokens: StrVec<T>, bar: T, bars: nat, currPipeIdx: int, ghost commands: seq<seq<T>>)
    returns (command: seq<T>)
    requires tokens.Valid() && bars < |commands| && Remaining(tokens.Contents(), bar, commands, bars, currPipeIdx)
    ensures command == commands[bars]
  {
    var slice := tokens.Slice(currPipeIdx + 1, tokens.length);
    command := slice.data[..slice.length];
    LastCommand(tokens.Contents(), bar, commands, bars, currPipeIdx, command);
  }

  /** Shortens the tokens to those before the current bar, and finds the bar before. */
  method DropCommand<T(0, ==)>(tokens: StrVec<T>, bar: T, bars: nat, currPipeIdx: int, ghost commands: seq<seq<T>>)
    returns (k: int)
    requires tokens.Valid() && 0 < bars < |commands| && Remaining(tokens.Contents(), bar, commands, bars, currPipeIdx)
    modifies tokens`length
    ensures tokens.Valid() && Remaining(tokens.Contents(), bar, commands, bars - 1, k)
  {
    OtherCommands(tokens.Contents(), bar, commands, bars, currPipeIdx);
    tokens.Take(currPipeIdx);
    NoOccurrences(tokens.Contents(), bar);
    k := -1;
    if bars != 1 {
      k := tokens.FindLast(bar);
    }
  }

  /** The write end that the shell still holds is not its lowest free descriptor, so the next read end is. */
  lemma LowestAgain(before: Table, base: Table, i: nat, pipeFds: seq<nat>, r: nat, w: nat)
    requires (i > 0 ==> 2 * i <= |pipeFds|) && Between(before, base, i, pipeFds)
    requires IsLowest(before, r) && r < w && w !in before
    ensures IsLowest(base, r) && IsHigher(base, w)
  {
    if i > 0 {
      var held := pipeFds[2 * i - 1];
      var d: nat :| d < held && d !in base;
      assert d !in before;
      assert r <= d < held;
    }
    forall d: nat | d < r ensures d in base {
      assert d in before;
    }
    assert r !in base;
  }

  /** A new pipe for the next child to read from, except for the first command of the line. */
  method MakePipe(shell: Process, n: nat, i: nat, pipeFds: array<nat>, ghost base: Table) returns (readFromPipe: int)
    requires pipeFds.Length == 2 * n && i <= n && Between(shell.table, base, i, pipeFds[..])
    modifies shell, pipeFds
    ensures readFromPipe == if i < n then 2 * i else -1
    ensures AtFork(shell.table, base, n, i, pipeFds[..])
  {
    if i == n {
      return -1;
    }
    ghost var before := shell.table;
    var r, w := shell.Pipe(i);
    LowestAgain(before, base, i, pipeFds[..], r, w);
    pipeFds[2 * i] := r;
    pipeFds[2 * i + 1] := w;
    assert Between(before, base, i, pipeFds[..]);
    return 2 * i;
  }

  /** The tokens not yet used: the first commands of the line, the last of them after the current bar. */
  ghost predicate Remaining<T>(tokens: seq<T>, bar: T, commands: seq<seq<T>>, bars: nat, currPipeIdx: int)
    requires bars < |commands|
  {
    && Split(tokens, bar) == commands[..bars + 1]
    && -1 <= currPipeIdx < |tokens| && (forall k :: currPipeIdx < k < |tokens| ==> tokens[k] != bar)
    && (currPipeIdx >= 0 ==> tokens[currPipeIdx] == bar)
    && (currPipeIdx >= 0 <==> bars > 0)
  }

  lemma StartRemaining<T>(line: seq<T>, bar: T, currPipeIdx: int)
    requires -1 <= currPipeIdx < |line|
    requires if Occurrences(line, bar) == 0 then currPipeIdx == -1
             else (currPipeIdx >= 0 ==> line[currPipeIdx] == bar)
                  && forall k :: currPipeIdx < k < |line| ==> line[k] != bar
    ensures Remaining(line, bar, Split(line, bar), Occurrences(line, bar), currPipeIdx)
  {
    NoOccurrences(line, bar);
    assert Split(line, bar)[..Occurrences(line, bar) + 1] == Split(line, bar);
  }

  /** The tokens after the current bar are the last command that is left. */
  lemma LastCommand<T>(tokens: seq<T>, bar: T, commands: seq<seq<T>>, bars: nat, currPipeIdx: int, command: seq<T>)
    requires bars < |commands| && Remaining(tokens, bar, commands, bars, currPipeIdx)
    requires IsRange(command, tokens, currPipeIdx + 1, |tokens|)
    ensures command == commands[bars]
  {
    if bars > 0 {
      OtherCommands(tokens, bar, commands, bars, currPipeIdx);
      assert command == tokens[currPipeIdx + 1..];
    } else {
      OnlyCommand(tokens, bar, commands);
      assert command == tokens;
    }
  }

  lemma OnlyCommand<T>(tokens: seq<T>, bar: T, commands: seq<seq<T>>)
    requires (forall k :: 0 <= k < |tokens| ==> tokens[k] != bar) && 0 < |commands|
    requires Split(tokens, bar) == commands[..1]
    ensures tokens == commands[0]
  {
    SplitPlain(tokens, bar);
    LastOf(commands, [], tokens, 0);
  }

  /** Those before it hold the others. */
  lemma OtherCommands<T>(tokens: seq<T>, bar: T, commands: seq<seq<T>>, bars: nat, currPipeIdx: int)
    requires 0 < bars < |commands| && Remaining(tokens, bar, commands, bars, currPipeIdx)
    ensures tokens[currPipeIdx + 1..] == commands[bars]
    ensures Split(tokens[..currPipeIdx], bar) == commands[..bars] && Occurrences(tokens[..currPipeIdx], bar) == bars - 1
  {
    SplitLast(tokens, bar, currPipeIdx);
    LastOf(commands, Split(tokens[..currPipeIdx], bar), tokens[currPipeIdx + 1..], bars);
  }

  lemma LastOf<T>(all: seq<seq<T>>, front: seq<seq<T>>, last: seq<T>, k: nat)
    requires k < |all| && all[..k + 1] == front + [last]
    ensures all[k] == last && all[..k] == front
  {
    assert all[..k + 1][k] == all[k] && all[..k + 1][..k] == all[..k];
  }

  /** Each pipe joins two neighbours: its read end is held by the later command alone, its write end by the
  earlier one alone, and the shell holds neither. */
  lemma PipesJoinNeighbours<T>(children: seq<Program<T>>, base: Table, commands: seq<seq<T>>, k: nat)
    requires IsBase(base) && AllBuilt(children, base, commands) && k + 1 < |commands|
    ensures forall i :: 0 <= i < |children| ==> (Holds(children[i].table, ReadEnd(k)) <==> i == k)
    ensures forall i :: 0 <= i < |children| ==> (Holds(children[i].table, WriteEnd(k)) <==> i == k + 1)
    ensures children[k].table[0] == ReadEnd(k) && children[k].command == commands[|commands| - 1 - k]
    ensures children[k + 1].table[1] == WriteEnd(k) && children[k + 1].command == commands[|commands| - 2 - k]
    ensures !Holds(base, ReadEnd(k)) && !Holds(base, WriteEnd(k))
  {
    assert IsBuilt(children[k], base, commands, k) && IsBuilt(children[k + 1], base, commands, k + 1);
    forall i | 0 <= i < |children|
      ensures (Holds(children[i].table, ReadEnd(k)) <==> i == k)
      ensures (Holds(children[i].table, WriteEnd(k)) <==> i == k + 1)
    {
      assert IsBuilt(children[i], base, commands, i);
    }
  }
}
