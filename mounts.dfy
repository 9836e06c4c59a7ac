/**
 * Enumeration of the btrfs mount points from the mount table, each line
 * already split into its whitespace-separated fields: only `btrfs` lines are
 * kept, and of several mounts of one device only the first.
 */
module Mounts {

  /** Positions of the fields the enumeration reads in a mount-table line. */
  const DeviceIdx := 0
  const MountIdx := 1
  const TypeIdx := 2

  type Line = seq<string>

  /** The source indexes the type field of every line. */
  predicate LinesReadable(lines: seq<Line>) {
    forall i | 0 <= i < |lines| :: |lines[i]| > TypeIdx
  }

  /** `ElementOf`: a linear scan that stops at the first match. */
  method ElementOf(s: seq<string>, v: string) returns (found: bool)
    ensures found <==> v in s
  {
    for i := 0 to |s|
      invariant forall k | 0 <= k < i :: s[k] != v
    {
      if s[i] == v {
        return true;
      }
    }
    return false;
  }

  predicate IsBtrfs(line: Line)
    requires |line| > TypeIdx
  {
    line[TypeIdx] == "btrfs"
  }

  /** Line `i` is a btrfs line whose device no earlier btrfs line has. */
  predicate FirstOfDevice(lines: seq<Line>, i: nat)
    requires LinesReadable(lines) && i < |lines|
  {
    IsBtrfs(lines[i]) &&
    forall j | 0 <= j < i :: IsBtrfs(lines[j]) ==> lines[j][DeviceIdx] != lines[i][DeviceIdx]
  }

  /** The lines below `n` that are the first of their device, in ascending order. */
  function Kept(lines: seq<Line>, n: nat): (ks: seq<nat>)
    requires LinesReadable(lines) && n <= |lines|
    ensures forall k | 0 <= k < |ks| :: ks[k] < n
    ensures forall a, b | 0 <= a < b < |ks| :: ks[a] < ks[b]
  {
    if n == 0 then []
    else Kept(lines, n - 1) + (if FirstOfDevice(lines, n - 1) then [n - 1] else [])
  }

  /** A line below `n` is kept exactly when it is the first btrfs line of its device. */
  lemma {:induction false} KeptFirst(lines: seq<Line>, n: nat)
    requires LinesReadable(lines) && n <= |lines|
    ensures forall i | 0 <= i < n :: FirstOfDevice(lines, i) <==> i in Kept(lines, n)
  {
    if n > 0 {
      KeptFirst(lines, n - 1);
      var prev := Kept(lines, n - 1);
      assert n - 1 !in prev;
      if FirstOfDevice(lines, n - 1) {
        assert Kept(lines, n) == prev + [n - 1];
      } else {
        assert Kept(lines, n) == prev;
      }
    }
  }

  /** Field `c` of each of the lines `ks`, in the order of `ks`. */
  function Column(lines: seq<Line>, ks: seq<nat>, c: nat): (col: seq<string>)
    requires LinesReadable(lines) && c <= TypeIdx
    requires forall k | 0 <= k < |ks| :: ks[k] < |lines|
    ensures |col| == |ks|
    ensures forall k | 0 <= k < |ks| :: col[k] == lines[ks[k]][c]
  {
    seq(|ks|, k requires 0 <= k < |ks| => lines[ks[k]][c])
  }

  /** The devices recorded after `n` lines are exactly those of the btrfs lines among them. */
  lemma {:induction false} DevicesSeen(lines: seq<Line>, n: nat, d: string)
    requires LinesReadable(lines) && n <= |lines|
    ensures d in Column(lines, Kept(lines, n), DeviceIdx) <==>
      exists j | 0 <= j < n :: IsBtrfs(lines[j]) && lines[j][DeviceIdx] == d
  {
    if n > 0 {
      var ks, prev := Kept(lines, n), Kept(lines, n - 1);
      var col, before := Column(lines, ks, DeviceIdx), Column(lines, prev, DeviceIdx);
      var last := lines[n - 1];
      DevicesSeen(lines, n - 1, d);
      if FirstOfDevice(lines, n - 1) {
        assert ks == prev + [n - 1];
        assert col == before + [last[DeviceIdx]];
      } else {
        assert ks == prev;
        assert col == before;
        if IsBtrfs(last) && last[DeviceIdx] == d {
          var j :| 0 <= j < n - 1 && IsBtrfs(lines[j]) && lines[j][DeviceIdx] == last[DeviceIdx];
          assert d in before;
        }
      }
      if d in before {
        var j :| 0 <= j < n - 1 && IsBtrfs(lines[j]) && lines[j][DeviceIdx] == d;
        assert j < n;
      }
    }
  }

  /**
   * `GetBtrfsMounts` over the split lines of the mount table: the mount
   * points of the lines that are the first btrfs line of their device, in
   * mount-table order.
   */
  method GetBtrfsMounts(lines: seq<Line>) returns (mounts: seq<string>)
    requires LinesReadable(lines)
    ensures mounts == Column(lines, Kept(lines, |lines|), MountIdx)
  {
    var devices: seq<string> := [];
    mounts := [];
    for i := 0 to |lines|
      invariant devices == Column(lines, Kept(lines, i), DeviceIdx)
      invariant mounts == Column(lines, Kept(lines, i), MountIdx)
    {
      var fields := lines[i];
      if fields[TypeIdx] == "btrfs" {
        var device := fields[DeviceIdx];
        var mount := fields[MountIdx];
        var seen := ElementOf(devices, device);
        DevicesSeen(lines, i, device);
        if seen {
          continue;
        } else {
          devices := devices + [device];
          mounts := mounts + [mount];
        }
      }
    }
  }

  /**
   * The enumeration keeps one entry per device: no device twice, every
   * device of a btrfs line present, and each entry's mount point the one of
   * that device's first btrfs line.
   */
  lemma KeptDevices(lines: seq<Line>)
    requires LinesReadable(lines)
    ensures var ks := Kept(lines, |lines|);
      var devices := Column(lines, ks, DeviceIdx);
      var mounts := Column(lines, ks, MountIdx);
      && |devices| == |mounts|
      && (forall a, b | 0 <= a < b < |devices| :: devices[a] != devices[b])
      && (forall j | 0 <= j < |lines| :: IsBtrfs(lines[j]) ==> lines[j][DeviceIdx] in devices)
      && (forall k | 0 <= k < |ks| ::
            IsBtrfs(lines[ks[k]]) && mounts[k] == lines[ks[k]][MountIdx] &&
            forall j | 0 <= j < ks[k] :: IsBtrfs(lines[j]) ==> lines[j][DeviceIdx] != devices[k])
  {
    var ks := Kept(lines, |lines|);
    var devices := Column(lines, ks, DeviceIdx);
    KeptFirst(lines, |lines|);
    forall a, b | 0 <= a < b < |devices|
      ensures devices[a] != devices[b]
    {
      assert ks[a] in ks && ks[b] in ks;
      assert FirstOfDevice(lines, ks[b]);
    }
    forall j | 0 <= j < |lines| && IsBtrfs(lines[j])
      ensures lines[j][DeviceIdx] in devices
    {
      DevicesSeen(lines, |lines|, lines[j][DeviceIdx]);
    }
    forall k | 0 <= k < |ks|
      ensures FirstOfDevice(lines, ks[k])
    {
      assert ks[k] in ks;
    }
  }
}
