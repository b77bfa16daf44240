/**
 The tables of the file system server: inodes and handles with their counters, and what any
 operation may do to them.
 */
module ServerState {
  import opened Base
  import opened DirectoryEntry

  const U64_MAX: nat := 0xFFFF_FFFF_FFFF_FFFF

  /** The root inode of FUSE */
  const ROOT: nat := 1

  /** Where an open file lies: first block and size */
  datatype Extent = Extent(start: u32, size: u32)

  datatype State = State(
    inodes: map<nat, Node>,
    inodeNumber: nat,
    files: map<nat, Extent>,
    fileNumber: nat,
    directories: map<nat, Node>,
    directoryNumber: nat)

  /** The server as `ISOFuse::new` sets it up */
  function FirstState(root: Node): State {
    State(map[ROOT := root], ROOT + 1, map[], 0, map[], 0)
  }

  /** Every live handle is below its counter, and so is every inode if the numbers are generated. */
  ghost predicate Inv(generates: bool, s: State) {
    && s.inodeNumber <= U64_MAX && s.fileNumber <= U64_MAX && s.directoryNumber <= U64_MAX
    && (generates ==> forall i :: i in s.inodes ==> i < s.inodeNumber)
    && (forall h :: h in s.files ==> h < s.fileNumber)
    && (forall h :: h in s.directories ==> h < s.directoryNumber)
  }

  /** A table grows only by the numbers its counter passes over, and does not change what it keeps. */
  ghost predicate Grows<T>(before: map<nat, T>, next: nat, after: map<nat, T>, next': nat) {
    && next <= next'
    && forall k :: k in after ==> (k in before && after[k] == before[k]) || (k !in before && next <= k < next')
  }

  /** What any operation may do */
  ghost predicate Evolves(generates: bool, s: State, s': State) {
    && (generates ==> Grows(s.inodes, s.inodeNumber, s'.inodes, s'.inodeNumber))
    && Grows(s.files, s.fileNumber, s'.files, s'.fileNumber)
    && Grows(s.directories, s.directoryNumber, s'.directories, s'.directoryNumber)
  }

  lemma EvolvesSame(generates: bool, s: State)
    ensures Evolves(generates, s, s)
  {
  }

  lemma GrowsOn<T>(a: map<nat, T>, m: nat, b: map<nat, T>, n: nat, c: map<nat, T>, o: nat)
    requires Grows(a, m, b, n) && Grows(b, n, c, o)
    requires forall k :: k in a ==> k < m
    ensures Grows(a, m, c, o)
  {
  }

  lemma EvolvesOn(generates: bool, a: State, b: State, c: State)
    requires Inv(generates, a) && Evolves(generates, a, b) && Evolves(generates, b, c)
    ensures Evolves(generates, a, c)
  {
    GrowsOn(a.files, a.fileNumber, b.files, b.fileNumber, c.files, c.fileNumber);
    GrowsOn(a.directories, a.directoryNumber, b.directories, b.directoryNumber, c.directories, c.directoryNumber);
    if generates {
      GrowsOn(a.inodes, a.inodeNumber, b.inodes, b.inodeNumber, c.inodes, c.inodeNumber);
    }
  }

  // ---- handing out numbers ----

  /** The numbers that one reply hands out */
  datatype Issued = Issued(files: seq<nat>, directories: seq<nat>, inodes: seq<nat>)

  /** Numbers in a row from a counter on, which the counter has passed afterwards */
  ghost predicate Row(ns: seq<nat>, next: nat, next': nat) {
    next + |ns| <= next' && forall k :: 0 <= k < |ns| ==> ns[k] == next + k
  }

  ghost predicate Issues(generates: bool, s: State, issued: Issued, s': State) {
    && Row(issued.files, s.fileNumber, s'.fileNumber)
    && Row(issued.directories, s.directoryNumber, s'.directoryNumber)
    && (generates ==> Row(issued.inodes, s.inodeNumber, s'.inodeNumber))
  }

  ghost predicate Increasing(ns: seq<nat>) {
    forall i, j :: 0 <= i < j < |ns| ==> ns[i] < ns[j]
  }

  /** Rows handed out one after the other from one counter never share a number. */
  lemma {:induction false} RowsIncrease(rows: seq<seq<nat>>, counters: seq<nat>)
    requires |counters| == |rows| + 1
    requires forall k :: 0 <= k < |rows| ==> Row(rows[k], counters[k], counters[k + 1])
    ensures Increasing(Flatten(rows))
    ensures counters[0] <= counters[|rows|] && forall n :: n in Flatten(rows) ==> counters[0] <= n < counters[|rows|]
    decreases |rows|
  {
    if rows != [] {
      assert Row(rows[0], counters[0], counters[1]);
      forall k | 0 <= k < |rows[1..]|
        ensures Row(rows[1..][k], counters[1..][k], counters[1..][k + 1])
      {
        assert Row(rows[k + 1], counters[k + 1], counters[k + 2]);
      }
      RowsIncrease(rows[1..], counters[1..]);
      var first, rest := rows[0], Flatten(rows[1..]);
      forall i, j | 0 <= i < j < |first + rest|
        ensures (first + rest)[i] < (first + rest)[j]
      {
        if i < |first| <= j {
          assert rest[j - |first|] in rest;
        }
      }
    }
  }
}
