/** src/tcp_closer.c: counting and checking the port options, and compiling
    them into the inet_diag bytecode filter.  Every port becomes a block of
    four operations (GE, operand, LE, operand); the source-port blocks come
    first and the destination-port blocks start at operation 4 * num_sport.
    Jump offsets are counted from the start of the current operation. */
module Closer {
  import opened Bytes
  import opened CString
  import opened Bytecode
  import opened Wrappers

  datatype Dir = Source | Dest

  /** What getopt_long hands the program, one item per option.  SourcePort
      and DestPort carry their argument text (-s/--sport, -d/--dport); Help is
      -h/--help, KillOnly is --kill_only, Unknown any other option or a missing
      argument.  Arguments that are not options are not reported by getopt. */
  datatype CmdOpt = SourcePort(arg: string) | DestPort(arg: string) | Help | KillOnly | Unknown

  predicate IsPortOpt(dir: Dir, o: CmdOpt)
  {
    if dir == Source then o.SourcePort? else o.DestPort?
  }

  /** The atoi values of the -s (or -d) arguments, in argument order. */
  function PortsOf(dir: Dir, opts: seq<CmdOpt>): seq<int>
  {
    if opts == [] then []
    else
      var o := opts[|opts| - 1];
      PortsOf(dir, opts[..|opts| - 1]) + (if IsPortOpt(dir, o) then [Atoi(o.arg)] else [])
  }

  /** An option parse_cmdargs lets through. */
  predicate Accepted(o: CmdOpt)
  {
    match o
    case SourcePort(a) => Atoi(a) != 0
    case DestPort(a) => Atoi(a) != 0
    case KillOnly => true
    case _ => false
  }

  /** The option lists parse_cmdargs accepts. */
  predicate ParseOk(opts: seq<CmdOpt>)
  {
    (forall i :: 0 <= i < |opts| ==> Accepted(opts[i])) &&
    |PortsOf(Source, opts)| + |PortsOf(Dest, opts)| <= MAX_NUM_PORTS
  }

  lemma {:induction false} PortsOfPrefix(dir: Dir, opts: seq<CmdOpt>, j: nat)
    requires j <= |opts|
    ensures PortsOf(dir, opts[..j]) <= PortsOf(dir, opts)
    decreases |opts| - j
  {
    if j < |opts| {
      PortsOfPrefix(dir, opts, j + 1);
      assert opts[..j + 1][..j] == opts[..j];
    } else {
      assert opts[..j] == opts;
    }
  }

  lemma PortsOfStep(dir: Dir, opts: seq<CmdOpt>, i: nat)
    requires i < |opts|
    ensures PortsOf(dir, opts[..i + 1])
         == PortsOf(dir, opts[..i]) + (if IsPortOpt(dir, opts[i]) then [Atoi(opts[i].arg)] else [])
  {
    assert opts[..i + 1][..i] == opts[..i];
  }

  /** The j-th option, a port option, contributes the next port of its list. */
  lemma PortAt(dir: Dir, opts: seq<CmdOpt>, j: nat)
    requires j < |opts| && IsPortOpt(dir, opts[j])
    ensures |PortsOf(dir, opts[..j])| < |PortsOf(dir, opts)|
    ensures PortsOf(dir, opts)[|PortsOf(dir, opts[..j])|] == Atoi(opts[j].arg)
  {
    PortsOfStep(dir, opts, j);
    PortsOfPrefix(dir, opts, j + 1);
    var pre := PortsOf(dir, opts[..j + 1]);
    assert pre[|pre| - 1] == Atoi(opts[j].arg);
  }

  /** A port argument of "4294967296" is rejected like "0": atoi's
      conversion to int leaves 0. */
  lemma WrappedPortRejected(opts: seq<CmdOpt>, j: nat)
    requires j < |opts| && opts[j] == SourcePort(Decimal(0x1_0000_0000))
    ensures !ParseOk(opts)
  {
    AtoiWrapsToZero();
    assert !Accepted(opts[j]);
  }

  /** parse_cmdargs: counts the source and destination ports, failing on a
      port whose atoi is 0, on -h and on any unknown option, and as soon as
      the combined count exceeds MAX_NUM_PORTS. */
  method ParseCmdargs(opts: seq<CmdOpt>) returns (ok: bool, numSport: nat, numDport: nat)
    ensures ok <==> ParseOk(opts)
    ensures ok ==> numSport == |PortsOf(Source, opts)| && numDport == |PortsOf(Dest, opts)|
    ensures numSport + numDport <= MAX_NUM_PORTS + 1
  {
    var error := false;
    numSport, numDport := 0, 0;
    var i := 0;
    while !error && i < |opts|
      invariant 0 <= i <= |opts|
      invariant numSport + numDport <= MAX_NUM_PORTS + 1
      invariant !error ==> numSport + numDport <= MAX_NUM_PORTS
      invariant !error ==> forall j :: 0 <= j < i ==> Accepted(opts[j])
      invariant !error ==> numSport == |PortsOf(Source, opts[..i])| && numDport == |PortsOf(Dest, opts[..i])|
      invariant error ==> !ParseOk(opts)
    {
      var o := opts[i];
      PortsOfStep(Source, opts, i);
      PortsOfStep(Dest, opts, i);
      if o.SourcePort? {
        if Atoi(o.arg) == 0 {
          error := true;
        } else {
          numSport := numSport + 1;
        }
      } else if o.DestPort? {
        if Atoi(o.arg) == 0 {
          error := true;
        } else {
          numDport := numDport + 1;
        }
      } else if !o.KillOnly? {
        error := true;
      }
      if numSport + numDport > MAX_NUM_PORTS {
        PortsOfPrefix(Source, opts, i + 1);
        PortsOfPrefix(Dest, opts, i + 1);
        error := true;
        break;
      }
      i := i + 1;
    }
    if !error {
      assert opts[..i] == opts;
    }
    ok := !error;
  }

  function GeCode(dir: Dir): OpCode
  {
    if dir == Source then SGe else DGe
  }

  function LeCode(dir: Dir): OpCode
  {
    if dir == Source then SLe else DLe
  }

  /** Operation i of the blocks create_filter writes for one port list.  The
      block number counts from 1 as diag_cur_num does; ports are truncated to
      16 bits and the LE jump to 8 bits, as the C assignments do. */
  function ListOp(dir: Dir, ports: seq<int>, i: nat): BcOp
    requires i < 4 * |ports|
  {
    var num := i / 4 + 1;
    var count := |ports|;
    var last := num == count;
    if i % 4 == 0 then
      BcOp(GeCode(dir), 2 * OP_SIZE, if last then ABORT_OFFSET else 4 * OP_SIZE)
    else if i % 4 == 2 then
      BcOp(LeCode(dir), (2 * OP_SIZE + 4 * OP_SIZE * (count - num)) % 0x100,
           if last then ABORT_OFFSET else 2 * OP_SIZE)
    else
      BcOp(Nop, 0, ports[i / 4] % 0x1_0000)
  }

  function ListOps(dir: Dir, ports: seq<int>): (r: seq<BcOp>)
    ensures |r| == 4 * |ports|
  {
    seq(4 * |ports|, i requires 0 <= i < 4 * |ports| => ListOp(dir, ports, i))
  }

  /** The four operations of block k (counted from 0) of a list. */
  lemma ListOpBlock(dir: Dir, ports: seq<int>, k: nat)
    requires k < |ports|
    ensures ListOp(dir, ports, 4 * k) == BcOp(GeCode(dir), 8, if k + 1 == |ports| then ABORT_OFFSET else 16)
    ensures ListOp(dir, ports, 4 * k + 1) == BcOp(Nop, 0, ports[k] % 0x1_0000)
    ensures ListOp(dir, ports, 4 * k + 2) == BcOp(LeCode(dir), (8 + 16 * (|ports| - k - 1)) % 0x100,
                                                  if k + 1 == |ports| then ABORT_OFFSET else 8)
    ensures ListOp(dir, ports, 4 * k + 3) == BcOp(Nop, 0, ports[k] % 0x1_0000)
  {
    assert (4 * k) / 4 == k && (4 * k + 1) / 4 == k && (4 * k + 2) / 4 == k && (4 * k + 3) / 4 == k;
  }

  /** The whole filter: the source blocks, then the destination blocks. */
  function Filter(sports: seq<int>, dports: seq<int>): (r: seq<BcOp>)
    ensures |r| == 4 * (|sports| + |dports|)
  {
    ListOps(Source, sports) + ListOps(Dest, dports)
  }

  /** The four operations create_filter writes for one port, the num-th of
      count ports in its list. */
  function Block(dir: Dir, port: int, num: nat, count: nat): (r: seq<BcOp>)
    ensures |r| == 4
  {
    var last := num == count;
    [BcOp(GeCode(dir), 2 * OP_SIZE, if last then ABORT_OFFSET else 4 * OP_SIZE),
     BcOp(Nop, 0, port % 0x1_0000),
     BcOp(LeCode(dir), (2 * OP_SIZE + 4 * OP_SIZE * (count - num)) % 0x100,
          if last then ABORT_OFFSET else 2 * OP_SIZE),
     BcOp(Nop, 0, port % 0x1_0000)]
  }

  /** The buffer once the first ns source blocks and the first nd
      destination blocks are written; the rest is still zero. */
  function Partial(S: seq<int>, D: seq<int>, ns: nat, nd: nat): (r: seq<BcOp>)
    requires ns <= |S| && nd <= |D|
    ensures |r| == 4 * (|S| + |D|)
  {
    seq(4 * (|S| + |D|), t requires 0 <= t < 4 * (|S| + |D|) =>
      if t < 4 * ns then ListOp(Source, S, t)
      else if t < 4 * |S| then ZERO_OP
      else if t < 4 * |S| + 4 * nd then ListOp(Dest, D, t - 4 * |S|)
      else ZERO_OP)
  }

  lemma PartialEnds(S: seq<int>, D: seq<int>)
    ensures Partial(S, D, 0, 0) == seq(4 * (|S| + |D|), _ => ZERO_OP)
    ensures Partial(S, D, |S|, |D|) == Filter(S, D)
  {
    var f := Filter(S, D);
    assert forall t :: 0 <= t < 4 * |S| ==> f[t] == ListOps(Source, S)[t];
    assert forall t :: 4 * |S| <= t < |f| ==> f[t] == ListOps(Dest, D)[t - 4 * |S|];
  }

  /** Writing the next source block advances the source part by one block. */
  lemma PartialSourceStep(S: seq<int>, D: seq<int>, ns: nat, nd: nat)
    requires ns < |S| && nd <= |D|
    ensures var p := Partial(S, D, ns, nd);
      p[4 * ns + 1].yes == 0 && p[4 * ns + 3].yes == 0 &&
      p[..4 * ns] + Block(Source, S[ns], ns + 1, |S|) + p[4 * ns + 4..] == Partial(S, D, ns + 1, nd)
  {
    ListOpBlock(Source, S, ns);
  }

  /** Writing the next destination block advances the destination part. */
  lemma PartialDestStep(S: seq<int>, D: seq<int>, ns: nat, nd: nat)
    requires ns <= |S| && nd < |D|
    ensures var p, at := Partial(S, D, ns, nd), 4 * |S| + 4 * nd;
      p[at + 1].yes == 0 && p[at + 3].yes == 0 &&
      p[..at] + Block(Dest, D[nd], nd + 1, |D|) + p[at + 4..] == Partial(S, D, ns, nd + 1)
  {
    ListOpBlock(Dest, D, nd);
    var at := 4 * |S| + 4 * nd;
    assert at - 4 * |S| == 4 * nd;
  }

  /** The field writes create_filter makes for one port: the num-th of count
      ports of its list, at operation `at`.  The ghost parameters place the
      block in the filter being built: ns source and nd destination blocks
      are written before it, and it is the next one of its list. */
  method WriteBlock(filter: array<BcOp>, at: nat, dir: Dir, port: int, num: nat, count: nat,
                    ghost S: seq<int>, ghost D: seq<int>, ghost ns: nat, ghost nd: nat)
    requires ns <= |S| && nd <= |D| && filter[..] == Partial(S, D, ns, nd)
    requires dir == Source ==> ns < |S| && at == 4 * ns && num == ns + 1 && count == |S| && port == S[ns]
    requires dir == Dest ==> nd < |D| && at == 4 * |S| + 4 * nd && num == nd + 1 && count == |D| && port == D[nd]
    modifies filter
    ensures dir == Source ==> filter[..] == Partial(S, D, ns + 1, nd)
    ensures dir == Dest ==> filter[..] == Partial(S, D, ns, nd + 1)
  {
    if dir == Source {
      PartialSourceStep(S, D, ns, nd);
    } else {
      PartialDestStep(S, D, ns, nd);
    }
    ghost var before := filter[..];
    filter[at] := filter[at].(code := GeCode(dir), yes := 2 * OP_SIZE,
                              no := if num == count then ABORT_OFFSET else 4 * OP_SIZE);
    filter[at + 1] := filter[at + 1].(code := Nop, no := port % 0x1_0000);
    filter[at + 2] := filter[at + 2].(code := LeCode(dir),
                                      yes := (2 * OP_SIZE + 4 * OP_SIZE * (count - num)) % 0x100,
                                      no := if num == count then ABORT_OFFSET else 2 * OP_SIZE);
    filter[at + 3] := filter[at + 3].(code := Nop, no := port % 0x1_0000);
    assert filter[..] == before[..at] + Block(dir, port, num, count) + before[at + 4..];
  }

  /** create_filter: walks the options again and writes each port's block in
      place, into the source part or the destination part of the zeroed
      buffer, advancing that part's index and block number. */
  method CreateFilter(opts: seq<CmdOpt>, filter: array<BcOp>, numSport: nat, numDport: nat)
    requires numSport == |PortsOf(Source, opts)| && numDport == |PortsOf(Dest, opts)|
    requires filter.Length == 4 * (numSport + numDport)
    requires forall t :: 0 <= t < filter.Length ==> filter[t] == ZERO_OP
    modifies filter
    ensures filter[..] == Filter(PortsOf(Source, opts), PortsOf(Dest, opts))
  {
    ghost var sports, dports := PortsOf(Source, opts), PortsOf(Dest, opts);
    PartialEnds(sports, dports);
    var dBase := numSport * 4;
    var sIdx, dIdx, sNum, dNum := 0, 0, 1, 1;
    var j := 0;
    while j < |opts|
      invariant 0 <= j <= |opts|
      invariant sNum == |PortsOf(Source, opts[..j])| + 1 && sIdx == 4 * (sNum - 1)
      invariant dNum == |PortsOf(Dest, opts[..j])| + 1 && dIdx == 4 * (dNum - 1)
      invariant sNum - 1 <= numSport && dNum - 1 <= numDport
      invariant filter[..] == Partial(sports, dports, sNum - 1, dNum - 1)
    {
      var o := opts[j];
      PortsOfStep(Source, opts, j);
      PortsOfStep(Dest, opts, j);
      if o.SourcePort? {
        PortAt(Source, opts, j);
        WriteBlock(filter, sIdx, Source, Atoi(o.arg), sNum, numSport, sports, dports, sNum - 1, dNum - 1);
        sIdx, sNum := sIdx + 4, sNum + 1;
      } else if o.DestPort? {
        PortAt(Dest, opts, j);
        WriteBlock(filter, dBase + dIdx, Dest, Atoi(o.arg), dNum, numDport, sports, dports, sNum - 1, dNum - 1);
        dIdx, dNum := dIdx + 4, dNum + 1;
      }
      j := j + 1;
    }
    assert opts[..j] == opts;
  }

  /** main (lines 187-231): no arguments or rejected options give exit
      status 1; otherwise the filter is sized at four 4-byte operations per
      port, allocated zeroed and filled by create_filter. */
  method Start(argc: int, opts: seq<CmdOpt>) returns (exitCode: int, filterLen: nat, filter: seq<BcOp>)
    requires opts == [] || |opts| < argc
    ensures exitCode == 0 <==> argc >= 2 && ParseOk(opts)
    ensures exitCode != 0 ==> exitCode == 1
    ensures exitCode == 0 ==>
      var sports, dports := PortsOf(Source, opts), PortsOf(Dest, opts);
      && filterLen == OP_SIZE * 4 * (|sports| + |dports|)
      && filterLen <= OP_SIZE * 4 * MAX_NUM_PORTS
      && |Encode(filter)| == filterLen
      && filter == Filter(sports, dports)
  {
    filterLen, filter := 0, [];
    if argc < 2 {
      exitCode := 1;
      return;
    }
    var ok, numSport, numDport := ParseCmdargs(opts);
    if !ok {
      exitCode := 1;
      return;
    }
    filterLen := OP_SIZE * 4 * (numSport + numDport);
    var buffer := new BcOp[4 * (numSport + numDport)](_ => ZERO_OP);
    CreateFilter(opts, buffer, numSport, numDport);
    filter := buffer[..];
    exitCode := 0;
  }

  /*** The filter's meaning under the interpreter of src/tcp_closer.h ***/

  /** The field a list's comparisons read: the source or the destination port. */
  function Val(dir: Dir, sport: int, dport: int): int
  {
    if dir == Source then sport else dport
  }

  /** v is one of the (16-bit truncated) ports P[k..]. */
  predicate InList(v: int, P: seq<int>, k: nat)
  {
    exists j :: k <= j < |P| && P[j] % 0x1_0000 == v
  }

  /** The ops of list P sit in prog from op index b on. */
  predicate ListAt(prog: seq<BcOp>, b: nat, dir: Dir, P: seq<int>)
  {
    b + 4 * |P| <= |prog| &&
    forall t {:trigger ListOp(dir, P, t)} :: 0 <= t < 4 * |P| ==> prog[b + t] == ListOp(dir, P, t)
  }

  lemma FilterLists(S: seq<int>, D: seq<int>)
    ensures ListAt(Filter(S, D), 0, Source, S)
    ensures ListAt(Filter(S, D), 4 * |S|, Dest, D)
  {
    var prog := Filter(S, D);
    assert forall t :: 0 <= t < 4 * |S| ==> prog[t] == ListOps(Source, S)[t];
    assert forall t :: 0 <= t < 4 * |D| ==> prog[4 * |S| + t] == ListOps(Dest, D)[t];
  }

  /** The four operations of block k (counted from 0) of a list. */
  lemma BlockAt(prog: seq<BcOp>, b: nat, dir: Dir, P: seq<int>, k: nat)
    requires ListAt(prog, b, dir, P) && k < |P|
    ensures b + 4 * k + 3 < |prog|
    ensures prog[b + 4 * k] == BcOp(GeCode(dir), 8, if k + 1 == |P| then ABORT_OFFSET else 16)
    ensures prog[b + 4 * k + 1] == BcOp(Nop, 0, P[k] % 0x1_0000)
    ensures prog[b + 4 * k + 2] == BcOp(LeCode(dir), (8 + 16 * (|P| - k - 1)) % 0x100,
                                        if k + 1 == |P| then ABORT_OFFSET else 8)
    ensures prog[b + 4 * k + 3] == BcOp(Nop, 0, P[k] % 0x1_0000)
  {
    assert prog[b + 4 * k] == ListOp(dir, P, 4 * k);
    assert prog[b + (4 * k + 1)] == ListOp(dir, P, 4 * k + 1);
    assert prog[b + (4 * k + 2)] == ListOp(dir, P, 4 * k + 2);
    assert prog[b + (4 * k + 3)] == ListOp(dir, P, 4 * k + 3);
  }

  /** One step of the interpreter from operation i, to `target` with the
      counter at `newLen`. */
  lemma OpStep(prog: seq<BcOp>, sport: int, dport: int, i: nat, len: int, t: bool, target: int, newLen: int)
    requires i < |prog| && len > 0 && Taken(prog, i, sport, dport) == Some(t)
    requires var off := if t then prog[i].yes else prog[i].no;
      off != 0 && target == OP_SIZE * i + off && newLen == len - off
    ensures Run(prog, sport, dport, OP_SIZE * i, len) == Run(prog, sport, dport, target, newLen)
  {
    assert (OP_SIZE * i) % OP_SIZE == 0 && (OP_SIZE * i) / OP_SIZE == i;
  }

  /** The two comparisons of block k test the list's field against its port. */
  lemma BlockTaken(prog: seq<BcOp>, b: nat, dir: Dir, P: seq<int>, k: nat, sport: int, dport: int)
    requires ListAt(prog, b, dir, P) && k < |P|
    ensures Taken(prog, b + 4 * k, sport, dport) == Some(Val(dir, sport, dport) >= P[k] % 0x1_0000)
    ensures Taken(prog, b + 4 * k + 2, sport, dport) == Some(Val(dir, sport, dport) <= P[k] % 0x1_0000)
  {
    BlockAt(prog, b, dir, P, k);
  }

  /** Where the interpreter is when it starts block k of a list at b. */
  function BlockPos(b: nat, k: nat): int
  {
    OP_SIZE * (b + 4 * k)
  }

  /** A match in block k of a list of at most 16 ports jumps past the list. */
  lemma BlockHit(prog: seq<BcOp>, b: nat, dir: Dir, P: seq<int>, k: nat, sport: int, dport: int)
    requires ListAt(prog, b, dir, P) && k < |P| && |P| <= 16
    requires Val(dir, sport, dport) == P[k] % 0x1_0000
    ensures Run(prog, sport, dport, BlockPos(b, k), OP_SIZE * |prog| - BlockPos(b, k))
         == Run(prog, sport, dport, BlockPos(b, |P|), OP_SIZE * |prog| - BlockPos(b, |P|))
  {
    BlockAt(prog, b, dir, P, k);
    BlockTaken(prog, b, dir, P, k, sport, dport);
    var i, len := b + 4 * k, OP_SIZE * |prog| - BlockPos(b, k);
    var off := 8 + 16 * (|P| - k - 1);
    assert off % 0x100 == off;
    OpStep(prog, sport, dport, i, len, true, OP_SIZE * (i + 2), len - 8);
    OpStep(prog, sport, dport, i + 2, len - 8, true, BlockPos(b, |P|), OP_SIZE * |prog| - BlockPos(b, |P|));
  }

  /** No match in block k, not the last block: on to block k + 1. */
  lemma BlockPass(prog: seq<BcOp>, b: nat, dir: Dir, P: seq<int>, k: nat, sport: int, dport: int)
    requires ListAt(prog, b, dir, P) && k + 1 < |P|
    requires Val(dir, sport, dport) != P[k] % 0x1_0000
    ensures Run(prog, sport, dport, BlockPos(b, k), OP_SIZE * |prog| - BlockPos(b, k))
         == Run(prog, sport, dport, BlockPos(b, k + 1), OP_SIZE * |prog| - BlockPos(b, k + 1))
  {
    BlockAt(prog, b, dir, P, k);
    BlockTaken(prog, b, dir, P, k, sport, dport);
    var i, len := b + 4 * k, OP_SIZE * |prog| - BlockPos(b, k);
    if Val(dir, sport, dport) >= P[k] % 0x1_0000 {
      OpStep(prog, sport, dport, i, len, true, OP_SIZE * (i + 2), len - 8);
      OpStep(prog, sport, dport, i + 2, len - 8, false, BlockPos(b, k + 1), len - 16);
    } else {
      OpStep(prog, sport, dport, i, len, false, BlockPos(b, k + 1), len - 16);
    }
  }

  /** No match in the last block: the abort jump rejects. */
  lemma BlockLastMiss(prog: seq<BcOp>, b: nat, dir: Dir, P: seq<int>, k: nat, sport: int, dport: int)
    requires ListAt(prog, b, dir, P) && k + 1 == |P|
    requires OP_SIZE * (|prog| - b) <= ABORT_OFFSET - 1
    requires Val(dir, sport, dport) != P[k] % 0x1_0000
    ensures Run(prog, sport, dport, BlockPos(b, k), OP_SIZE * |prog| - BlockPos(b, k)) == Reject
  {
    BlockAt(prog, b, dir, P, k);
    BlockTaken(prog, b, dir, P, k, sport, dport);
    var i, len := b + 4 * k, OP_SIZE * |prog| - BlockPos(b, k);
    if Val(dir, sport, dport) >= P[k] % 0x1_0000 {
      OpStep(prog, sport, dport, i, len, true, OP_SIZE * (i + 2), len - 8);
      OpStep(prog, sport, dport, i + 2, len - 8, false, OP_SIZE * (i + 2) + ABORT_OFFSET, len - 8 - ABORT_OFFSET);
      assert Run(prog, sport, dport, OP_SIZE * (i + 2) + ABORT_OFFSET, len - 8 - ABORT_OFFSET) == Reject;
    } else {
      OpStep(prog, sport, dport, i, len, false, OP_SIZE * i + ABORT_OFFSET, len - ABORT_OFFSET);
      assert Run(prog, sport, dport, OP_SIZE * i + ABORT_OFFSET, len - ABORT_OFFSET) == Reject;
    }
  }

  /** From block k on, a value in none of P[k..] is rejected, however many
      ports the list has, as long as the abort jump works. */
  lemma {:induction false} ListMiss(prog: seq<BcOp>, b: nat, dir: Dir, P: seq<int>, k: nat, sport: int, dport: int)
    requires ListAt(prog, b, dir, P) && k < |P|
    requires OP_SIZE * (|prog| - b) <= ABORT_OFFSET - 1
    requires !InList(Val(dir, sport, dport), P, k)
    ensures Run(prog, sport, dport, BlockPos(b, k), OP_SIZE * |prog| - BlockPos(b, k)) == Reject
    decreases |P| - k
  {
    assert Val(dir, sport, dport) != P[k] % 0x1_0000;
    if k + 1 == |P| {
      BlockLastMiss(prog, b, dir, P, k, sport, dport);
    } else {
      assert !InList(Val(dir, sport, dport), P, k + 1);
      BlockPass(prog, b, dir, P, k, sport, dport);
      ListMiss(prog, b, dir, P, k + 1, sport, dport);
    }
  }

  /** The block a match in block k jumps to: the LE's wrapped 8-bit offset
      counts (|P| - k - 1) % 16 blocks past the next one. */
  function LeTarget(P: seq<int>, k: nat): nat
  {
    k + 1 + (|P| - k - 1) % 16
  }

  /** A match in block k, in a list of any length, goes on at LeTarget. */
  lemma BlockHitAny(prog: seq<BcOp>, b: nat, dir: Dir, P: seq<int>, k: nat, sport: int, dport: int)
    requires ListAt(prog, b, dir, P) && k < |P|
    requires Val(dir, sport, dport) == P[k] % 0x1_0000
    ensures k < LeTarget(P, k) <= |P|
    ensures Run(prog, sport, dport, BlockPos(b, k), OP_SIZE * |prog| - BlockPos(b, k))
         == Run(prog, sport, dport, BlockPos(b, LeTarget(P, k)), OP_SIZE * |prog| - BlockPos(b, LeTarget(P, k)))
  {
    BlockAt(prog, b, dir, P, k);
    BlockTaken(prog, b, dir, P, k, sport, dport);
    var i, len := b + 4 * k, OP_SIZE * |prog| - BlockPos(b, k);
    var to := LeTarget(P, k);
    WrappedOffset(|P| - k - 1);
    OpStep(prog, sport, dport, i, len, true, OP_SIZE * (i + 2), len - 8);
    OpStep(prog, sport, dport, i + 2, len - 8, true, BlockPos(b, to), OP_SIZE * |prog| - BlockPos(b, to));
  }

  /** From block k of a list of any length, with the abort jump working:
      the interpreter either rejects or reaches the end of the list. */
  lemma {:induction false} ListReaches(prog: seq<BcOp>, b: nat, dir: Dir, P: seq<int>, k: nat, sport: int, dport: int)
    requires ListAt(prog, b, dir, P) && k < |P|
    requires OP_SIZE * (|prog| - b) <= ABORT_OFFSET - 1
    ensures var r := Run(prog, sport, dport, BlockPos(b, k), OP_SIZE * |prog| - BlockPos(b, k));
      r == Reject || r == Run(prog, sport, dport, BlockPos(b, |P|), OP_SIZE * |prog| - BlockPos(b, |P|))
    decreases |P| - k
  {
    if Val(dir, sport, dport) == P[k] % 0x1_0000 {
      BlockHitAny(prog, b, dir, P, k, sport, dport);
      if LeTarget(P, k) < |P| {
        ListReaches(prog, b, dir, P, LeTarget(P, k), sport, dport);
      }
    } else if k + 1 == |P| {
      BlockLastMiss(prog, b, dir, P, k, sport, dport);
    } else {
      BlockPass(prog, b, dir, P, k, sport, dport);
      ListReaches(prog, b, dir, P, k + 1, sport, dport);
    }
  }

  /** From block k of a list of at most 16 ports: a value in P[k..] jumps to
      the end of the list, any other value is rejected. */
  lemma {:induction false} ListRun(prog: seq<BcOp>, b: nat, dir: Dir, P: seq<int>, k: nat, sport: int, dport: int)
    requires ListAt(prog, b, dir, P) && k < |P| && |P| <= 16
    requires OP_SIZE * (|prog| - b) <= ABORT_OFFSET - 1
    ensures Run(prog, sport, dport, BlockPos(b, k), OP_SIZE * |prog| - BlockPos(b, k))
         == if InList(Val(dir, sport, dport), P, k)
            then Run(prog, sport, dport, BlockPos(b, |P|), OP_SIZE * |prog| - BlockPos(b, |P|))
            else Reject
    decreases |P| - k
  {
    var v := Val(dir, sport, dport);
    if !InList(v, P, k) {
      ListMiss(prog, b, dir, P, k, sport, dport);
    } else if v == P[k] % 0x1_0000 {
      BlockHit(prog, b, dir, P, k, sport, dport);
    } else {
      var j :| k <= j < |P| && P[j] % 0x1_0000 == v;
      assert InList(v, P, k + 1);
      BlockPass(prog, b, dir, P, k, sport, dport);
      ListRun(prog, b, dir, P, k + 1, sport, dport);
    }
  }

  /** Both lists in place, the source list first: the filter's verdict. */
  lemma ListsSemantics(prog: seq<BcOp>, S: seq<int>, D: seq<int>, sport: int, dport: int)
    requires |S| <= 16 && |D| <= 16 && |prog| == 4 * (|S| + |D|)
    requires ListAt(prog, 0, Source, S) && ListAt(prog, 4 * |S|, Dest, D)
    ensures Accepts(prog, sport, dport)
         == if (S == [] || InList(sport, S, 0)) && (D == [] || InList(dport, D, 0)) then Accept else Reject
  {
    var total := OP_SIZE * |prog|;
    var mid := 4 * |S|;
    assert BlockPos(0, 0) == 0 && BlockPos(0, |S|) == BlockPos(mid, 0);
    assert BlockPos(mid, |D|) == total;
    assert Run(prog, sport, dport, total, 0) == Accept;
    if D != [] {
      ListRun(prog, mid, Dest, D, 0, sport, dport);
    }
    if S != [] {
      ListRun(prog, 0, Source, S, 0, sport, dport);
    }
  }

  /** The promise of the help text: with at most 16 ports in each list, the
      filter accepts a connection iff its source port is one of the source
      ports (if any were given) and its destination port one of the
      destination ports (if any were given); every other connection is
      rejected. */
  lemma FilterSemantics(S: seq<int>, D: seq<int>, sport: int, dport: int)
    requires |S| <= 16 && |D| <= 16
    ensures Accepts(Filter(S, D), sport, dport)
         == if (S == [] || InList(sport, S, 0)) && (D == [] || InList(dport, D, 0)) then Accept else Reject
  {
    FilterLists(S, D);
    ListsSemantics(Filter(S, D), S, D, sport, dport);
  }

  /** Any program holding the two lists, of any lengths and 4095 ports at
      most in all: an accepted connection has its ports in the lists. */
  lemma ListsSafe(prog: seq<BcOp>, S: seq<int>, D: seq<int>, sport: int, dport: int)
    requires |S| + |D| <= 4095 && |prog| == 4 * (|S| + |D|)
    requires ListAt(prog, 0, Source, S) && ListAt(prog, 4 * |S|, Dest, D)
    ensures Accepts(prog, sport, dport) == Accept ==>
      (S == [] || InList(sport, S, 0)) && (D == [] || InList(dport, D, 0))
  {
    var mid := 4 * |S|;
    assert BlockPos(0, 0) == 0 && BlockPos(0, |S|) == BlockPos(mid, 0);
    if S != [] && !InList(sport, S, 0) {
      ListMiss(prog, 0, Source, S, 0, sport, dport);
    } else if D != [] && !InList(dport, D, 0) {
      ListMiss(prog, mid, Dest, D, 0, sport, dport);
      if S != [] {
        ListReaches(prog, 0, Source, S, 0, sport, dport);
      }
    }
  }

  /** What the filter guarantees for lists of any length, as long as the
      abort jump works (at most 4095 ports, FilterAbortBound): a connection
      it accepts has its source port among the -s ports (if any) and its
      destination port among the -d ports (if any). */
  lemma FilterSafe(S: seq<int>, D: seq<int>, sport: int, dport: int)
    requires |S| + |D| <= 4095
    ensures Accepts(Filter(S, D), sport, dport) == Accept ==>
      (S == [] || InList(sport, S, 0)) && (D == [] || InList(dport, D, 0))
  {
    FilterLists(S, D);
    ListsSafe(Filter(S, D), S, D, sport, dport);
  }

  /** A jump target is a comparison operation or exactly the end of the
      filter: never an operand holder, never past the end. */
  predicate Lands(prog: seq<BcOp>, target: int)
  {
    target == OP_SIZE * |prog| ||
    (0 <= target && target % OP_SIZE == 0 && target / OP_SIZE < |prog| && IsCompare(prog[target / OP_SIZE]))
  }

  /** Lands, for a target that is a whole number of operations. */
  lemma LandsAt(prog: seq<BcOp>, i: nat)
    requires i == |prog| || (i < |prog| && IsCompare(prog[i]))
    ensures Lands(prog, OP_SIZE * i)
  {
    assert (OP_SIZE * i) % OP_SIZE == 0 && (OP_SIZE * i) / OP_SIZE == i;
  }

  lemma ListJumps(prog: seq<BcOp>, b: nat, dir: Dir, P: seq<int>, k: nat, r: nat)
    requires ListAt(prog, b, dir, P) && k < |P| && (r == 0 || r == 2)
    requires b + 4 * |P| == |prog| || (b + 4 * |P| < |prog| && IsCompare(prog[b + 4 * |P|]))
    ensures var i := b + 4 * k + r;
      && IsCompare(prog[i])
      && Lands(prog, OP_SIZE * i + prog[i].yes)
      && (prog[i].no == ABORT_OFFSET || Lands(prog, OP_SIZE * i + prog[i].no))
  {
    BlockAt(prog, b, dir, P, k);
    var i := b + 4 * k + r;
    var last := k + 1 == |P|;
    if !last {
      BlockAt(prog, b, dir, P, k + 1);
      LandsAt(prog, b + 4 * (k + 1));
    }
    LandsAt(prog, b + 4 * |P|);
    LandsAt(prog, b + 4 * k + 2);
    if r == 0 {
      assert OP_SIZE * i + 8 == OP_SIZE * (b + 4 * k + 2);
      assert !last ==> OP_SIZE * i + 16 == OP_SIZE * (b + 4 * (k + 1));
    } else {
      LeJumpLands(prog, b, dir, P, k);
      assert !last ==> OP_SIZE * i + 8 == OP_SIZE * (b + 4 * (k + 1));
    }
  }

  /** The LE's 8-bit `yes` wraps to a whole number of blocks, and never
      further than the end of the list: it lands on a later block's GE or
      at the list's end. */
  lemma LeJumpLands(prog: seq<BcOp>, b: nat, dir: Dir, P: seq<int>, k: nat)
    requires ListAt(prog, b, dir, P) && k < |P|
    requires b + 4 * |P| == |prog| || (b + 4 * |P| < |prog| && IsCompare(prog[b + 4 * |P|]))
    ensures b + 4 * k + 2 < |prog|
    ensures Lands(prog, OP_SIZE * (b + 4 * k + 2) + prog[b + 4 * k + 2].yes)
  {
    BlockAt(prog, b, dir, P, k);
    var m := |P| - k - 1;
    var to := k + 1 + m % 16;
    WrappedOffset(m);
    assert OP_SIZE * (b + 4 * k + 2) + prog[b + 4 * k + 2].yes == OP_SIZE * (b + 4 * to);
    if to < |P| {
      BlockAt(prog, b, dir, P, to);
    }
    LandsAt(prog, b + 4 * to);
  }

  /** Each 16 blocks of distance make the 8-bit offset wrap once. */
  lemma {:induction false} WrappedOffset(m: nat)
    ensures (8 + 16 * m) % 0x100 == 8 + 16 * (m % 16)
  {
    if m >= 16 {
      WrappedOffset(m - 16);
      assert 8 + 16 * m == (8 + 16 * (m - 16)) + 0x100;
    }
  }

  /** Every jump in a filter, other than the 0xFFFF abort, lands on a
      comparison or exactly at the end, so no path reaches an operand
      holder (src/tcp_closer.c:77-103).  This holds for lists of any
      length: a wrapped LE offset still lands on a later block's GE. */
  lemma JumpsLandOnComparisons(S: seq<int>, D: seq<int>, i: nat)
    requires i < 4 * (|S| + |D|) && IsCompare(Filter(S, D)[i])
    ensures var prog := Filter(S, D);
      && Lands(prog, OP_SIZE * i + prog[i].yes)
      && (prog[i].no == ABORT_OFFSET || Lands(prog, OP_SIZE * i + prog[i].no))
  {
    FilterLists(S, D);
    ListsJumps(Filter(S, D), S, D, i);
  }

  lemma ListsJumps(prog: seq<BcOp>, S: seq<int>, D: seq<int>, i: nat)
    requires |prog| == 4 * (|S| + |D|)
    requires ListAt(prog, 0, Source, S) && ListAt(prog, 4 * |S|, Dest, D)
    requires i < |prog| && IsCompare(prog[i])
    ensures Lands(prog, OP_SIZE * i + prog[i].yes)
    ensures prog[i].no == ABORT_OFFSET || Lands(prog, OP_SIZE * i + prog[i].no)
  {
    var ns := 4 * |S|;
    if D != [] {
      BlockAt(prog, ns, Dest, D, 0);
    }
    if i < ns {
      assert prog[0 + i] == ListOp(Source, S, i);
      assert i == 4 * (i / 4) + i % 4;
      ListJumps(prog, 0, Source, S, i / 4, i % 4);
    } else {
      var t := i - ns;
      assert prog[ns + t] == ListOp(Dest, D, t);
      assert t == 4 * (t / 4) + t % 4;
      ListJumps(prog, ns, Dest, D, t / 4, t % 4);
    }
  }

  /** The 8-bit `yes` of an LE wraps once a list has more than 16 ports: with
      17 source ports, a connection whose source port is the first of them
      jumps to the second block instead of past the list, and is rejected. */
  lemma LeJumpWrapsBeyond16(S: seq<int>, dport: int)
    requires |S| == 17
    requires forall j :: 1 <= j < 17 ==> S[j] % 0x1_0000 != S[0] % 0x1_0000
    ensures InList(S[0] % 0x1_0000, S, 0)
    ensures Accepts(Filter(S, []), S[0] % 0x1_0000, dport) == Reject
  {
    var prog := Filter(S, []);
    var v := S[0] % 0x1_0000;
    FilterLists(S, []);
    BlockAt(prog, 0, Source, S, 0);
    BlockTaken(prog, 0, Source, S, 0, v, dport);
    assert (8 + 16 * 16) % 0x100 == 8;
    OpStep(prog, v, dport, 0, 272, true, 8, 264);
    OpStep(prog, v, dport, 2, 264, true, BlockPos(0, 1), 256);
    assert !InList(v, S, 1);
    ListMiss(prog, 0, Source, S, 1, v, dport);
  }

  /** The abort jump works from every operation exactly when the 16-byte
      per port filter holds at most 4095 ports; MAX_NUM_PORTS exceeds that. */
  lemma FilterAbortBound(n: nat)
    ensures AbortAlwaysWorks(OP_SIZE * 4 * n) <==> n <= 4095
    ensures !AbortAlwaysWorks(OP_SIZE * 4 * MAX_NUM_PORTS)
  {
    AbortAlwaysWorksIff(OP_SIZE * 4 * n);
    AbortAlwaysWorksIff(OP_SIZE * 4 * MAX_NUM_PORTS);
  }

  /** One source port and 4095 destination ports, 4096 in all and so
      within MAX_NUM_PORTS: a connection whose source port is below the one
      given takes the 0xFFFF jump, which leaves the counter at 1 and the
      cursor at byte 65535, between operations, instead of rejecting. */
  lemma AbortFailsAt4096Ports(p: int, D: seq<int>, sport: int, dport: int)
    requires |D| == 4095 && sport < p % 0x1_0000
    ensures Accepts(Filter([p], D), sport, dport) == Fault
  {
    var prog := Filter([p], D);
    FilterLists([p], D);
    BlockAt(prog, 0, Source, [p], 0);
    BlockTaken(prog, 0, Source, [p], 0, sport, dport);
    OpStep(prog, sport, dport, 0, 65536, false, 65535, 1);
    assert Run(prog, sport, dport, 65535, 1) == Fault;
  }
}
