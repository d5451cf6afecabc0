/** src/tcp_closer_proc.c: the fallback that kills every process holding a
    socket, found by its inode among the fd symlinks under /proc.  The
    directory tree is a snapshot given as a value; the kills are the
    output. */
module ProcScan {
  import opened Bytes
  import opened CString
  import opened Wrappers

  /** An entry of /proc/<pid>/fd: whether readdir reports it as a symbolic
      link (DT_LNK), and what readlink gives for it (None: readlink failed). */
  datatype FdEntry = FdEntry(isSymlink: bool, link: Option<string>)

  /** An entry of /proc: its name and its fd directory (None: opendir of
      /proc/<name>/fd failed). */
  datatype ProcEntry = ProcEntry(name: string, fds: Option<seq<FdEntry>>)

  const U64_RANGE: nat := 0x1_0000_0000_0000_0000

  /** The pid of a /proc entry: atoll of its name, cast to uint64_t.  Names
      that are not numbers ("." or "self") give 0. */
  function Pid(name: string): (p: nat)
    ensures p < U64_RANGE
    ensures 0 <= Strtol(name) ==> p == Strtol(name)
  {
    Strtol(name) % U64_RANGE
  }

  /** The pid_t kill() receives for a uint64_t pid: a 32-bit int, so the
      pid is kept modulo 2^32. */
  function KillTarget(pid: nat): (r: int)
    ensures -0x8000_0000 <= r < 0x8000_0000
    ensures (r - pid) % 0x1_0000_0000 == 0
    ensures pid < 0x8000_0000 ==> r == pid
  {
    var v := pid % 0x1_0000_0000;
    if v < 0x8000_0000 then v else v - 0x1_0000_0000
  }

  /** The text starts with "socket" (strncmp with strlen("socket")). */
  predicate IsSocketLink(s: string)
  {
    |s| >= 6 && s[..6] == "socket"
  }

  /** strstr(s, "["): the index of the first '['. */
  function FirstBracket(s: string): (r: Option<nat>)
    ensures r.Some? ==> r.value < |s| && s[r.value] == '[' && '[' !in s[..r.value]
    ensures r.None? ==> '[' !in s
  {
    if s == [] then None
    else if s[0] == '[' then Some(0)
    else
      var r := FirstBracket(s[1..]);
      if r.Some? then
        assert s[..r.value + 1] == [s[0]] + s[1..][..r.value];
        Some(r.value + 1)
      else None
  }

  /** The inode a link names: only socket links, the digits after the
      first '[' with the last character of the link (the ']') cut off,
      as atoi reads them, stored in a uint32_t.  A link with no '[' names
      no inode. */
  function LinkInode(s: string): (r: Option<u32>)
    ensures !IsSocketLink(s) ==> r == None
    ensures r.Some? ==> FirstBracket(s).Some?
  {
    if !IsSocketLink(s) then None
    else
      match FirstBracket(s)
      case None => None
      case Some(p) =>
        var text := if p + 1 <= |s| - 1 then s[p + 1..|s| - 1] else "";
        Some((Atoi(text) % 0x1_0000_0000) as u32)
  }

  /** The inode an fd entry refers to, when it is a readable socket link. */
  function FdInode(e: FdEntry): (r: Option<u32>)
    ensures r.Some? ==> e.isSymlink && e.link.Some? && e.link.value != [] && r == LinkInode(e.link.value)
  {
    if e.isSymlink && e.link.Some? && e.link.value != [] then LinkInode(e.link.value) else None
  }

  /** Some fd of the directory is a socket link to the inode. */
  predicate Holds(fds: seq<FdEntry>, inode: u32)
  {
    exists j :: 0 <= j < |fds| && FdInode(fds[j]) == Some(inode)
  }

  /** The process of a /proc entry is killed: its pid is not 0, its fd
      directory opens, and it holds the inode. */
  predicate Killed(e: ProcEntry, inode: u32)
  {
    Pid(e.name) != 0 && e.fds.Some? && Holds(e.fds.value, inode)
  }

  /** The pids killed for the entries of /proc, in directory order. */
  function Victims(procs: seq<ProcEntry>, inode: u32): (r: seq<nat>)
    ensures |r| <= |procs|
  {
    if procs == [] then []
    else
      var last := procs[|procs| - 1];
      Victims(procs[..|procs| - 1], inode) + (if Killed(last, inode) then [Pid(last.name)] else [])
  }

  /** destroy_socket_proc: when /proc opens, each entry whose name is a
      non-zero pid has its fd directory read; every symlink that reads back
      as "socket...[N]" with N the inode kills the pid, and the rest of
      that directory is skipped.  Entries that cannot be opened or read
      are passed over. */
  method DestroySocketProc(proc: Option<seq<ProcEntry>>, inodeOrg: u32) returns (killed: seq<nat>)
    ensures proc.None? ==> killed == []
    ensures proc.Some? ==> killed == Victims(proc.value, inodeOrg)
  {
    killed := [];
    if proc.None? {
      return;
    }
    var procs := proc.value;
    var i := 0;
    while i < |procs|
      invariant 0 <= i <= |procs|
      invariant killed == Victims(procs[..i], inodeOrg)
    {
      var e := procs[i];
      assert procs[..i + 1][..i] == procs[..i];
      var pid := Pid(e.name);
      if pid != 0 && e.fds.Some? {
        var found := ScanFdDir(e.fds.value, inodeOrg);
        if found {
          killed := killed + [pid];
        }
      }
      i := i + 1;
    }
    assert procs[..|procs|] == procs;
  }

  /** The loop over the entries of one /proc/<pid>/fd directory: it stops
      at the first symlink that reads back as "socket...[N]" with N the
      inode, and passes over entries that are not links, cannot be read or
      are not sockets. */
  method ScanFdDir(fds: seq<FdEntry>, inodeOrg: u32) returns (found: bool)
    ensures found <==> Holds(fds, inodeOrg)
  {
    found := false;
    var j := 0;
    while j < |fds|
      invariant 0 <= j <= |fds|
      invariant forall k :: 0 <= k < j ==> FdInode(fds[k]) != Some(inodeOrg)
    {
      var fd := fds[j];
      if fd.isSymlink && fd.link.Some? && fd.link.value != [] {
        var link := fd.link.value;
        if IsSocketLink(link) {
          var p := FirstBracket(link);
          if p.Some? {
            // the link's last character (the ']') is cut off
            var truncated := link[..|link| - 1];
            var text := if p.value + 1 <= |truncated| then truncated[p.value + 1..] else "";
            var inode := (Atoi(text) % 0x1_0000_0000) as u32;
            assert p.value + 1 <= |link| - 1 ==> text == link[p.value + 1..|link| - 1];
            assert FdInode(fd) == Some(inode);
            if inode == inodeOrg {
              found := true;
              return;
            }
          }
        }
      }
      j := j + 1;
    }
  }

  /** A pid is among the victims exactly when some /proc entry with that
      pid is killed. */
  lemma {:induction false} VictimsIff(procs: seq<ProcEntry>, inode: u32, pid: nat)
    ensures pid in Victims(procs, inode) <==> exists k :: 0 <= k < |procs| && KilledAs(procs[k], inode, pid)
  {
    if procs != [] {
      var init := procs[..|procs| - 1];
      var last := procs[|procs| - 1];
      VictimsIff(init, inode, pid);
      if KilledAs(last, inode, pid) {
        assert KilledAs(procs[|procs| - 1], inode, pid);
        assert Victims(procs, inode) == Victims(init, inode) + [pid];
      } else {
        assert pid !in (if Killed(last, inode) then [Pid(last.name)] else []);
        if exists k :: 0 <= k < |procs| && KilledAs(procs[k], inode, pid) {
          var k :| 0 <= k < |procs| && KilledAs(procs[k], inode, pid);
          assert k != |procs| - 1;
          assert init[k] == procs[k];
        }
        if pid in Victims(init, inode) {
          var k :| 0 <= k < |init| && KilledAs(init[k], inode, pid);
          assert procs[k] == init[k];
        }
      }
    }
  }

  /** The entry is killed, and under the given pid. */
  predicate KilledAs(e: ProcEntry, inode: u32, pid: nat)
  {
    Killed(e, inode) && Pid(e.name) == pid
  }

  /** No victim has pid 0.  The kill target of a victim whose pid is below
      2^31 is that pid, so it is not 0 either (see WrappedPidSignalsGroup
      for a pid that is not). */
  lemma {:induction false} VictimsNonZero(procs: seq<ProcEntry>, inode: u32)
    ensures forall k :: 0 <= k < |Victims(procs, inode)| ==> Victims(procs, inode)[k] != 0
  {
    if procs != [] {
      VictimsNonZero(procs[..|procs| - 1], inode);
    }
  }

  /** When the entries of /proc name distinct pids, no pid is killed twice. */
  lemma {:induction false} VictimsDistinct(procs: seq<ProcEntry>, inode: u32)
    requires forall a, b :: 0 <= a < b < |procs| ==> Pid(procs[a].name) != Pid(procs[b].name)
    ensures forall a, b :: 0 <= a < b < |Victims(procs, inode)| ==> Victims(procs, inode)[a] != Victims(procs, inode)[b]
  {
    if procs != [] {
      var init := procs[..|procs| - 1];
      var last := procs[|procs| - 1];
      VictimsDistinct(init, inode);
      if Killed(last, inode) {
        var v := Victims(init, inode);
        forall k | 0 <= k < |v|
          ensures v[k] != Pid(last.name)
        {
          VictimsIff(init, inode, v[k]);
          var m :| 0 <= m < |init| && KilledAs(init[m], inode, v[k]);
          assert init[m] == procs[m];
        }
      }
    }
  }

  /** The link the kernel shows for a socket, "socket:[N]". */
  function SocketLink(n: nat): (s: string)
    ensures IsSocketLink(s)
  {
    "socket:[" + Decimal(n) + "]"
  }

  /** Reading the inode back from a socket link gives the inode. */
  lemma SocketLinkInode(n: u32)
    ensures LinkInode(SocketLink(n)) == Some(n)
  {
    var s := SocketLink(n);
    var d := Decimal(n);
    assert s[..8] == "socket:[";
    assert '[' !in s[..7];
    assert FirstBracket(s[..8]) == Some(7);
    BracketPrefix(s[..8], s[8..]);
    assert s[..8] + s[8..] == s;
    assert FirstBracket(s) == Some(7);
    assert s[8..|s| - 1] == d;
    AtoiDecimal(n);
    assert (Atoi(d) % 0x1_0000_0000) as u32 == n;
  }

  /** The first '[' of a string is found before anything appended to it. */
  lemma {:induction false} BracketPrefix(a: string, b: string)
    requires FirstBracket(a).Some?
    ensures FirstBracket(a + b) == FirstBracket(a)
  {
    if a[0] != '[' {
      assert (a + b)[1..] == a[1..] + b;
      BracketPrefix(a[1..], b);
    }
  }

  /** The socket link of the inode, held by an entry with a non-zero pid
      whose fd directory opens, gets that pid killed. */
  lemma HolderKilled(name: string, before: seq<FdEntry>, after: seq<FdEntry>, inode: u32)
    requires Pid(name) != 0
    ensures Killed(ProcEntry(name, Some(before + [FdEntry(true, Some(SocketLink(inode)))] + after)), inode)
  {
    var fds := before + [FdEntry(true, Some(SocketLink(inode)))] + after;
    SocketLinkInode(inode);
    assert FdInode(fds[|before|]) == Some(inode);
  }

  /** A /proc entry named "4294967296" has pid 2^32, which is not 0, so it
      is killed when it holds the socket; but kill() gets pid_t 0, which
      signals the caller's whole process group.  The kernel never names a
      process so, since pids stay below 2^22. */
  lemma WrappedPidSignalsGroup(before: seq<FdEntry>, after: seq<FdEntry>, inode: u32)
    ensures var e := ProcEntry(Decimal(0x1_0000_0000), Some(before + [FdEntry(true, Some(SocketLink(inode)))] + after));
      Killed(e, inode) && KillTarget(Pid(e.name)) == 0
  {
    AtoiDecimal(0x1_0000_0000);
    HolderKilled(Decimal(0x1_0000_0000), before, after, inode);
  }
}
