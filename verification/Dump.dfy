/** Reading the output of `wg show IFACE dump`. */
module Dump {
  import opened Text

  datatype PeerStats = PeerStats(
    publicKey: string, endpoint: string, allowedIPs: string,
    latestHandshake: string, transferRx: string, transferTx: string)

  /** unicode.IsSpace. */
  predicate IsSpace(c: char) {
    var u := c as int;
    || 9 <= u <= 13 || u == 0x20 || u == 0x85 || u == 0xA0 || u == 0x1680 || 0x2000 <= u <= 0x200A
    || u == 0x2028 || u == 0x2029 || u == 0x202F || u == 0x205F || u == 0x3000
  }

  /** Of the ASCII characters only the blank, the tab, the newline, the vertical tab, the form feed and
      the carriage return are space; what is visible is not. */
  lemma AsciiSpace(c: char)
    requires c as int < 128
    ensures IsSpace(c) <==> c in " \t\n\r" || c as int == 11 || c as int == 12
    ensures '!' <= c <= '~' ==> !IsSpace(c)
  {
  }

  /** Fields of visible ASCII characters, as keys, addresses and numbers are, can be printed and read. */
  lemma VisibleIsClean(s: string)
    requires s != [] && forall i :: 0 <= i < |s| ==> '!' <= s[i] <= '~'
    ensures Clean(s)
  {
  }

  function TrimLeft(s: string): string {
    if s != [] && IsSpace(s[0]) then TrimLeft(s[1..]) else s
  }

  function TrimRight(s: string): string {
    if s != [] && IsSpace(s[|s| - 1]) then TrimRight(s[..|s| - 1]) else s
  }

  function TrimSpace(s: string): string {
    TrimRight(TrimLeft(s))
  }

  ghost predicate AllSpace(s: string) {
    forall i :: 0 <= i < |s| ==> IsSpace(s[i])
  }

  lemma {:induction false} TrimLeftIs(s: string) returns (front: string)
    ensures s == front + TrimLeft(s) && AllSpace(front)
    ensures TrimLeft(s) != [] ==> !IsSpace(TrimLeft(s)[0])
  {
    front := "";
    if s != [] && IsSpace(s[0]) {
      front := TrimLeftIs(s[1..]);
      front := [s[0]] + front;
    }
  }

  lemma {:induction false} TrimRightIs(s: string) returns (back: string)
    ensures s == TrimRight(s) + back && AllSpace(back)
    ensures TrimRight(s) != [] ==> !IsSpace(TrimRight(s)[|TrimRight(s)| - 1]) && TrimRight(s)[0] == s[0]
  {
    back := "";
    if s != [] && IsSpace(s[|s| - 1]) {
      back := TrimRightIs(s[..|s| - 1]);
      back := back + [s[|s| - 1]];
    }
  }

  /** Trimming takes space off both ends, and all of it. */
  lemma TrimSpaceIs(s: string) returns (front: string, back: string)
    ensures s == front + TrimSpace(s) + back && AllSpace(front) && AllSpace(back)
    ensures var t := TrimSpace(s); t != [] ==> !IsSpace(t[0]) && !IsSpace(t[|t| - 1])
  {
    front := TrimLeftIs(s);
    back := TrimRightIs(TrimLeft(s));
  }

  function Lines(output: string): (lines: seq<string>)
    ensures |lines| >= 1
  {
    Split(TrimSpace(output), '\n')
  }

  predicate IsPeerLine(line: string) {
    |Split(line, '\t')| >= 7
  }

  function Count(s: string, c: char): nat {
    if s == [] then 0 else (if s[0] == c then 1 else 0) + Count(s[1..], c)
  }

  lemma {:induction false} SplitCounts(s: string, sep: char)
    ensures |Split(s, sep)| == Count(s, sep) + 1
  {
    if s != [] {
      SplitCounts(s[1..], sep);
    }
  }

  /** A line is a peer's if it has at least six tabs. */
  lemma SixTabs(line: string)
    ensures IsPeerLine(line) <==> Count(line, '\t') >= 6
  {
    SplitCounts(line, '\t');
  }

  function StatsOf(line: string): PeerStats
    requires IsPeerLine(line)
  {
    var f := Split(line, '\t');
    PeerStats(f[0], f[2], f[3], f[4], f[5], f[6])
  }

  /** The indices, in order, of the peer lines among lines 1 to n - 1. */
  ghost function PeerLines(lines: seq<string>, n: nat): seq<nat>
    requires 1 <= n <= |lines|
  {
    if n == 1 then []
    else PeerLines(lines, n - 1) + if IsPeerLine(lines[n - 1]) then [n - 1] else []
  }

  /** The statistics of the peer lines among lines 1 to n - 1. */
  ghost function Selected(lines: seq<string>, n: nat): seq<PeerStats>
    requires 1 <= n <= |lines|
  {
    if n == 1 then []
    else Selected(lines, n - 1) + if IsPeerLine(lines[n - 1]) then [StatsOf(lines[n - 1])] else []
  }

  ghost function Parsed(output: string): seq<PeerStats> {
    Selected(Lines(output), |Lines(output)|)
  }

  method ParseDump(output: string) returns (stats: seq<PeerStats>)
    ensures stats == Parsed(output)
  {
    stats := [];
    var lines := Split(TrimSpace(output), '\n');
    var i := 1;
    while i < |lines|
      invariant 1 <= i <= |lines|
      invariant stats == Selected(lines, i)
    {
      var fields := Split(lines[i], '\t');
      i := i + 1;
      if |fields| < 7 {
        continue;
      }
      stats := stats + [PeerStats(fields[0], fields[2], fields[3], fields[4], fields[5], fields[6])];
    }
  }

  /** On any text at all, parsing takes exactly the lines after the first with at least seven tab
      fields, each once and in order. */
  lemma {:induction false} SelectedLines(lines: seq<string>, n: nat)
    requires 1 <= n <= |lines|
    ensures var idx := PeerLines(lines, n);
            && Increasing(idx)
            && (forall i :: 1 <= i < n && IsPeerLine(lines[i]) ==> i in idx)
            && |Selected(lines, n)| == |idx|
            && (forall k :: 0 <= k < |idx| ==>
                  && 1 <= idx[k] < n && IsPeerLine(lines[idx[k]])
                  && Selected(lines, n)[k] == StatsOf(lines[idx[k]]))
  {
    hide IsPeerLine, StatsOf;
    if n > 1 {
      SelectedLines(lines, n - 1);
      var before, idx := PeerLines(lines, n - 1), PeerLines(lines, n);
      forall i | 1 <= i < n && IsPeerLine(lines[i]) ensures i in idx {
        assert i < n - 1 ==> i in before;
      }
    }
  }

  ghost predicate Increasing(idx: seq<nat>) {
    forall j, k :: 0 <= j < k < |idx| ==> idx[j] < idx[k]
  }

  /** The eight columns of a peer line. */
  datatype DumpPeer = DumpPeer(stats: PeerStats, presharedKey: string, keepalive: string)

  function Fields(p: DumpPeer): seq<string> {
    [p.stats.publicKey, p.presharedKey, p.stats.endpoint, p.stats.allowedIPs,
     p.stats.latestHandshake, p.stats.transferRx, p.stats.transferTx, p.keepalive]
  }

  ghost predicate Clean(s: string) {
    s != [] && forall i :: 0 <= i < |s| ==> !IsSpace(s[i])
  }

  ghost predicate AllClean(fields: seq<string>) {
    |fields| >= 1 && forall i :: 0 <= i < |fields| ==> Clean(fields[i])
  }

  function DumpLines(iface: seq<string>, ps: seq<DumpPeer>): seq<string>
    requires |iface| >= 1
  {
    [Join(iface, '\t')] + seq(|ps|, i requires 0 <= i < |ps| => Join(Fields(ps[i]), '\t'))
  }

  /** The interface line and one line a peer, each ended by a newline. */
  function PrintDump(iface: seq<string>, ps: seq<DumpPeer>): string
    requires |iface| >= 1
  {
    Join(DumpLines(iface, ps), '\n') + "\n"
  }

  /** A joined line starts and ends with a visible character and holds no newline. */
  ghost predicate Solid(line: string) {
    line != [] && !IsSpace(line[0]) && !IsSpace(line[|line| - 1]) && Free(line, '\n')
  }

  lemma {:induction false} JoinedIsSolid(fields: seq<string>)
    requires AllClean(fields)
    ensures Solid(Join(fields, '\t'))
  {
    assert Clean(fields[0]);
    if |fields| > 1 {
      forall i | 0 <= i < |fields[1..]| ensures Clean(fields[1..][i]) {
        assert Clean(fields[i + 1]);
      }
      JoinedIsSolid(fields[1..]);
      var line := Join(fields, '\t');
      assert line == fields[0] + ['\t'] + Join(fields[1..], '\t');
    }
  }

  lemma {:induction false} LinesAreSolid(lines: seq<string>)
    requires |lines| >= 1 && forall i :: 0 <= i < |lines| ==> Solid(lines[i])
    ensures var s := Join(lines, '\n'); s != [] && !IsSpace(s[0]) && !IsSpace(s[|s| - 1])
  {
    assert Solid(lines[0]);
    if |lines| > 1 {
      forall i | 0 <= i < |lines[1..]| ensures Solid(lines[1..][i]) {
        assert Solid(lines[i + 1]);
      }
      LinesAreSolid(lines[1..]);
    }
  }

  /** Trimming the printed text takes off its last newline only, so the lines come back whole. */
  lemma PrintedLines(iface: seq<string>, ps: seq<DumpPeer>)
    requires AllClean(iface) && forall i :: 0 <= i < |ps| ==> AllClean(Fields(ps[i]))
    ensures Lines(PrintDump(iface, ps)) == DumpLines(iface, ps)
  {
    var lines := DumpLines(iface, ps);
    forall i | 0 <= i < |lines| ensures Solid(lines[i]) && Free(lines[i], '\n') {
      JoinedIsSolid(if i == 0 then iface else Fields(ps[i - 1]));
    }
    LinesAreSolid(lines);
    var text := Join(lines, '\n');
    var printed := PrintDump(iface, ps);
    assert printed[..|printed| - 1] == text;
    assert TrimLeft(printed) == printed;
    assert TrimRight(printed) == TrimRight(text) == text;
    SplitJoin(lines, '\n');
  }

  lemma PrintedPeer(p: DumpPeer)
    requires AllClean(Fields(p))
    ensures var line := Join(Fields(p), '\t'); IsPeerLine(line) && StatsOf(line) == p.stats
  {
    var f := Fields(p);
    forall i | 0 <= i < |f| ensures Free(f[i], '\t') {
      assert Clean(f[i]);
    }
    SplitJoin(f, '\t');
  }

  lemma {:induction false} AllPeerLines(lines: seq<string>, stats: seq<PeerStats>, n: nat)
    requires 1 <= n <= |lines| == |stats| + 1
    requires forall i :: 1 <= i < |lines| ==> IsPeerLine(lines[i]) && StatsOf(lines[i]) == stats[i - 1]
    ensures Selected(lines, n) == stats[..n - 1]
  {
    hide IsPeerLine, StatsOf;
    if n > 1 {
      AllPeerLines(lines, stats, n - 1);
    }
  }

  /** Printing an interface line and any peers, then parsing, gives exactly those peers in order. */
  lemma PrintThenParse(iface: seq<string>, ps: seq<DumpPeer>)
    requires AllClean(iface) && forall i :: 0 <= i < |ps| ==> AllClean(Fields(ps[i]))
    ensures Parsed(PrintDump(iface, ps)) == seq(|ps|, k requires 0 <= k < |ps| => ps[k].stats)
  {
    var lines := DumpLines(iface, ps);
    var stats := seq(|ps|, k requires 0 <= k < |ps| => ps[k].stats);
    PrintedLines(iface, ps);
    hide IsPeerLine, StatsOf, Fields, AllClean, PrintDump, Lines;
    forall i | 1 <= i < |lines| ensures IsPeerLine(lines[i]) && StatsOf(lines[i]) == stats[i - 1] {
      PrintedPeer(ps[i - 1]);
    }
    AllPeerLines(lines, stats, |lines|);
  }
}
