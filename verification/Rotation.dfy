/** A log file that is appended to and rotated: its generations, oldest first. */
module Rotation {
  import opened Lines
  import opened Wrappers

  /** A file as its inode holds it. */
  datatype File = File(ino: nat, content: Bytes)

  /** The two names the log has on disk. */
  datatype Disk = Disk(current: Option<File>, rotated: Option<File>)

  /** Every generation of the log that has existed, the current one last, with their inodes. */
  datatype Log = Log(gens: seq<Bytes>, inos: seq<nat>) {
    /** Two files that exist at the same time have different inodes. */
    ghost predicate Distinct() {
      |inos| == |gens| && forall g :: 0 < g < |gens| ==> inos[g] != inos[g - 1]
    }

    /** A log whose writer rotates it between lines. */
    ghost predicate Valid() {
      && Distinct()
      && (forall g :: 0 <= g < |gens| ==> inos[g] > 0)
      && (forall g :: 0 <= g < |gens| - 1 ==> Split(gens[g]).rest == [])
    }

    function OnDisk(): Disk
      requires |inos| == |gens|
    {
      var n := |gens|;
      Disk(if n >= 1 then Some(File(inos[n - 1], gens[n - 1])) else None,
           if n >= 2 then Some(File(inos[n - 2], gens[n - 2])) else None)
    }

    /** The writer adds more bytes, whole lines or parts of one. */
    function Append(more: Bytes): Log
      requires gens != []
    {
      Log(gens[..|gens| - 1] + [gens[|gens| - 1] + more], inos)
    }

    /** The writer renames the current file and starts a fresh one. */
    function Rotate(ino: nat): Log {
      Log(gens + [[]], inos + [ino])
    }
  }

  ghost function AllLines(gens: seq<Bytes>): seq<Bytes> {
    if gens == [] then [] else AllLines(gens[..|gens| - 1]) + Split(gens[|gens| - 1]).lines
  }

  lemma {:induction false} AllLinesConcat(a: seq<Bytes>, b: seq<Bytes>)
    ensures AllLines(a + b) == AllLines(a) + AllLines(b)
    decreases |b|
  {
    if b == [] {
      assert a + b == a;
    } else {
      assert (a + b)[..|a + b| - 1] == a + b[..|b| - 1];
      AllLinesConcat(a, b[..|b| - 1]);
    }
  }

  lemma AllLinesSnoc(gens: seq<Bytes>, last: Bytes)
    ensures AllLines(gens + [last]) == AllLines(gens) + Split(last).lines
  {
    assert (gens + [last])[..|gens|] == gens;
  }

  /** Between two moments the writer appends, rotates, and creates the log if there is none. */
  ghost predicate Grown(a: Log, b: Log) {
    var n := |a.gens|;
    && |b.inos| == |b.gens| >= n && b.inos[..n] == a.inos
    && (n > 0 ==> b.gens[..n - 1] == a.gens[..n - 1] && a.gens[n - 1] <= b.gens[n - 1])
  }

  /** Growth with at most one rotation. */
  ghost predicate Evolves(a: Log, b: Log) {
    Grown(a, b) && |b.gens| <= |a.gens| + 1
  }

  lemma GrownTwice(a: Log, b: Log, c: Log)
    requires Grown(a, b) && Grown(b, c)
    ensures Grown(a, c)
  {
    var n, m := |a.gens|, |b.gens|;
    assert c.inos[..n] == c.inos[..m][..n];
    if n > 0 {
      assert c.gens[..n - 1] == c.gens[..m - 1][..n - 1] && b.gens[..n - 1] == b.gens[..m - 1][..n - 1];
      if n < m {
        assert c.gens[n - 1] == c.gens[..m - 1][n - 1];
      }
    }
  }
}
