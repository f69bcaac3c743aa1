/** The boards of the video application: slot accounting and least-loaded placement. */
module VideoBoards {

  const BOARD_MAX: nat := 5
  const CHANNEL_MAX: nat := 32
  const FPS_DEFAULT: nat := 1080
  const LOAD_CEILING: nat := 0xfffffff0
  const TWO_TO_THE_32: nat := 0x1_0000_0000
  const ERROR: int := -1

  type Uint32 = n: int | 0 <= n < 0x1_0000_0000
  type Uint8 = n: int | 0 <= n < 256

  /** A camera; its channel number and frame rate never change. */
  class Stream {
    const ch: nat
    const fps: Uint32
    const url: string
    var id: nat
    var hwSync: bool

    constructor (ch: nat, fps: Uint32, url: string)
      ensures this.ch == ch && this.url == url && !hwSync && id == 0
      ensures this.fps == (if fps != 0 then fps else FPS_DEFAULT)
    {
      this.ch, this.url := ch, url;
      this.fps := if fps != 0 then fps else FPS_DEFAULT;
      id, hwSync := 0, false;
    }
  }

  // ----- the slots of one board -----

  function Occupied(s: seq<Stream?>): (n: nat)
    ensures n <= |s|
  {
    if s == [] then 0 else (if s[0] != null then 1 else 0) + Occupied(s[1..])
  }

  function LoadOf(s: seq<Stream?>): nat {
    if s == [] then 0 else (if s[0] != null then s[0].fps else 0) + LoadOf(s[1..])
  }

  /** The first slot that holds v, or the number of slots. */
  function SlotOf(s: seq<Stream?>, v: Stream?): (j: nat)
    ensures j <= |s| && (j < |s| ==> s[j] == v) && forall i :: 0 <= i < j ==> s[i] != v
  {
    if s == [] || s[0] == v then 0 else 1 + SlotOf(s[1..], v)
  }

  function FirstFree(s: seq<Stream?>): nat {
    SlotOf(s, null)
  }

  ghost predicate NoRepeats(s: seq<Stream?>) {
    forall i, j :: 0 <= i < j < |s| && s[i] != null ==> s[i] != s[j]
  }

  /** Changing one slot changes both sums by what that slot holds. */
  lemma {:induction false} SlotUpdate(s: seq<Stream?>, j: nat, v: Stream?)
    requires j < |s|
    ensures Occupied(s[j := v]) + (if s[j] != null then 1 else 0) == Occupied(s) + (if v != null then 1 else 0)
    ensures LoadOf(s[j := v]) + (if s[j] != null then s[j].fps else 0) == LoadOf(s) + (if v != null then v.fps else 0)
  {
    if j == 0 {
      assert s[j := v][1..] == s[1..];
    } else {
      assert s[j := v][1..] == s[1..][j - 1 := v];
      SlotUpdate(s[1..], j - 1, v);
    }
  }

  lemma {:induction false} NoneOccupied(s: seq<Stream?>)
    ensures Occupied(s) == 0 <==> forall i :: 0 <= i < |s| ==> s[i] == null
  {
    if s != [] {
      NoneOccupied(s[1..]);
      if forall i :: 0 <= i < |s[1..]| ==> s[1..][i] == null {
        assert forall i :: 0 < i < |s| ==> s[i] == s[1..][i - 1];
      }
    }
  }

  lemma {:induction false} EmptySlots(s: seq<Stream?>)
    requires forall i :: 0 <= i < |s| ==> s[i] == null
    ensures Occupied(s) == 0 && LoadOf(s) == 0
  {
    if s != [] { EmptySlots(s[1..]); }
  }

  /** The slots after an add, and after a delete. */
  function Added(s: seq<Stream?>, v: Stream): seq<Stream?> {
    if v in s || FirstFree(s) == |s| then s else s[FirstFree(s) := v]
  }

  function Removed(s: seq<Stream?>, v: Stream): seq<Stream?> {
    if v in s then s[SlotOf(s, v) := null] else s
  }

  /** Deleting the stream that was just added restores every slot. */
  lemma DelUndoesAdd(s: seq<Stream?>, v: Stream)
    requires v !in s
    ensures Removed(Added(s, v), v) == s
  {
    var f := FirstFree(s);
    if f < |s| {
      var t := s[f := v];
      assert t[f] == v;
      assert forall i :: 0 <= i < f ==> t[i] == s[i] && s[i] in s;
    }
  }

  // ----- channel numbers -----

  /** Every stream sits in the slot its channel number names. */
  ghost predicate Numbered(s: seq<Stream?>) {
    forall j :: 0 <= j < |s| && s[j] != null ==> s[j].ch == j + 1
  }

  /** The first slot whose stream has this channel number. */
  function ChannelSlot(s: seq<Stream?>, ch: nat): (j: nat)
    ensures j <= |s| && (j < |s| ==> s[j] != null && s[j].ch == ch)
    ensures forall i :: 0 <= i < j ==> s[i] == null || s[i].ch != ch
  {
    if s == [] || (s[0] != null && s[0].ch == ch) then 0 else 1 + ChannelSlot(s[1..], ch)
  }

  /** An add keeps the numbering exactly when the stream got the number of the first free slot,
      which is what an automatic number is. */
  lemma AddKeepsNumbering(s: seq<Stream?>, v: Stream)
    requires Numbered(s) && v !in s && FirstFree(s) < |s|
    ensures Numbered(Added(s, v)) <==> v.ch == FirstFree(s) + 1
  {
    var f := FirstFree(s);
    var t := s[f := v];
    assert t[f] == v;
    forall j | 0 <= j < |t| && t[j] != null && j != f
      ensures t[j].ch == j + 1
    {
      assert t[j] == s[j];
    }
  }

  /** While it holds, the number finds exactly the slot it names. */
  lemma NumberedFinds(s: seq<Stream?>, ch: nat)
    requires Numbered(s) && 1 <= ch <= |s|
    ensures s[ch - 1] != null ==> ChannelSlot(s, ch) == ch - 1
    ensures s[ch - 1] == null ==> ChannelSlot(s, ch) == |s|
  {
    var j := ChannelSlot(s, ch);
    assert j < |s| ==> s[j].ch == j + 1;
  }

  /** A number chosen by hand goes to the first free slot all the same, so the next automatic one can repeat it. */
  lemma HandNumberingCollides(s: seq<Stream?>, v: Stream)
    requires |s| == CHANNEL_MAX && (forall i :: 0 <= i < |s| ==> s[i] == null) && v.ch == 2
    ensures var t := s[FirstFree(s) := v]; FirstFree(t) + 1 == v.ch && !Numbered(t)
  {
    var t := s[FirstFree(s) := v];
    assert FirstFree(s) == 0 by { assert s[0] == null; }
    assert t[0] == v && t[1] == null;
    assert FirstFree(t) == 1;
  }

  class Board {
    var id: nat
    var channelCnt: Uint8
    const channel: array<bool>
    const stream: array<Stream?>
    var load: Uint32
    var use: bool
    var active: bool
    var disabled: bool

    constructor (id: nat)
      ensures Valid() && fresh(channel) && fresh(stream)
      ensures this.id == id && use && !active && !disabled
      ensures forall j :: 0 <= j < CHANNEL_MAX ==> stream[j] == null
    {
      this.id, channelCnt, load, use, active, disabled := id, 0, 0, true, false, false;
      channel := new bool[CHANNEL_MAX](_ => false);
      stream := new Stream?[CHANNEL_MAX](_ => null);
      new;
      EmptySlots(stream[..]);
    }

    /** Load and flags agree with the slots; the load is kept in 32 bits. */
    ghost predicate Accounted()
      reads this, channel, stream
    {
      && channel.Length == CHANNEL_MAX && stream.Length == CHANNEL_MAX
      && (forall j :: 0 <= j < CHANNEL_MAX ==> (channel[j] <==> stream[j] != null))
      && load == LoadOf(stream[..]) % TWO_TO_THE_32
      && NoRepeats(stream[..])
    }

    ghost predicate Valid()
      reads this, channel, stream
    {
      Accounted() && channelCnt == Occupied(stream[..])
    }

    predicate Eligible()
      reads this
    {
      use && !disabled && id != 0 && active
    }

    method Lookup(value: Stream) returns (found: bool)
      requires Accounted()
      ensures found == (value in stream[..])
    {
      for i := 0 to CHANNEL_MAX
        invariant value !in stream[..i]
      {
        if stream[i] != null && stream[i] == value {
          return true;
        }
      }
      assert stream[..CHANNEL_MAX] == stream[..];
      return false;
    }

    method FreeChannel() returns (ch: int)
      requires Accounted()
      ensures ch == if FirstFree(stream[..]) < CHANNEL_MAX then FirstFree(stream[..]) + 1 else ERROR
    {
      for j := 0 to CHANNEL_MAX
        invariant forall l :: 0 <= l < j ==> stream[l] != null
      {
        if !channel[j] && stream[j] == null {
          assert FirstFree(stream[..]) == j;
          return j + 1;
        }
      }
      return ERROR;
    }

    method LookupChannel(ch: nat) returns (found: Stream?)
      requires Valid()
      ensures var s := stream[..]; found == if ChannelSlot(s, ch) < |s| then s[ChannelSlot(s, ch)] else null
    {
      if channelCnt == 0 {
        NoneOccupied(stream[..]);
        return null;
      }
      for i := 0 to CHANNEL_MAX
        invariant forall j :: 0 <= j < i ==> stream[j] == null || stream[j].ch != ch
      {
        if stream[i] != null && stream[i].ch == ch {
          assert ChannelSlot(stream[..], ch) == i;
          return stream[i];
        }
      }
      return null;
    }

    /** Takes the first free slot; whether the device accepts the channel does not matter for the result. */
    method Add(value: Stream, sdkOk: bool) returns (ok: bool)
      requires Accounted() && value !in stream[..]
      modifies this`load, channel, stream, value
      ensures Accounted()
      ensures ok == (FirstFree(old(stream[..])) < CHANNEL_MAX)
      ensures stream[..] == if ok then old(stream[..])[FirstFree(old(stream[..])) := value] else old(stream[..])
      ensures ok ==> Occupied(stream[..]) == old(Occupied(stream[..])) + 1
      ensures ok ==> value.id == id && value.hwSync == (old(value.hwSync) || (value.url != "" && active && sdkOk))
      ensures !ok ==> value.id == old(value.id) && value.hwSync == old(value.hwSync)
    {
      ghost var s := stream[..];
      for i := 0 to CHANNEL_MAX
        invariant stream[..] == s && channel[..] == old(channel[..]) && load == old(load)
        invariant value.id == old(value.id) && value.hwSync == old(value.hwSync)
        invariant forall k :: 0 <= k < i ==> s[k] != null
      {
        if stream[i] == null {
          SlotUpdate(s, i, value);
          channel[i] := true;
          stream[i] := value;
          value.id := id;
          load := (load + value.fps) % TWO_TO_THE_32;
          assert stream[..] == s[i := value];
          if value.url != "" && active && sdkOk {
            value.hwSync := true;
          }
          assert FirstFree(s) == i;
          return true;
        }
      }
      assert FirstFree(s) == |s|;
      return false;
    }

    /** The slot is given back even when the device refuses, which is then an error all the same. */
    method Del(value: Stream, sdkOk: bool) returns (ok: bool)
      requires Accounted()
      modifies this`load, channel, stream, value
      ensures Accounted()
      ensures ok <==> value in old(stream[..]) && (old(value.hwSync) ==> sdkOk)
      ensures var s := old(stream[..]); var j := SlotOf(s, value);
        && stream[..] == (if j < |s| then s[j := null] else s)
        && (j < |s| ==> Occupied(stream[..]) == Occupied(s) - 1 && value.id == 0)
        && (j == |s| ==> value.id == old(value.id))
      ensures value.hwSync == old(value.hwSync)
    {
      ghost var s := stream[..];
      for i := 0 to CHANNEL_MAX
        invariant stream[..] == s && channel[..] == old(channel[..]) && load == old(load)
        invariant value.id == old(value.id) && value.hwSync == old(value.hwSync)
        invariant forall k :: 0 <= k < i ==> s[k] != value
      {
        if stream[i] != null && stream[i] == value {
          SlotUpdate(s, i, null);
          load := (load - value.fps) % TWO_TO_THE_32;
          channel[i] := false;
          value.id := 0;
          stream[i] := null;
          assert stream[..] == s[i := null];
          assert SlotOf(s, value) == i && s[i] == value;
          if value.hwSync {
            return sdkOk;
          }
          return true;
        }
      }
      assert SlotOf(s, value) == |s|;
      return false;
    }

    /** v9_video_board_stream_add on the board it has found: add, then count. */
    method AddOnce(value: Stream, sdkOk: bool) returns (ok: bool)
      requires Accounted()
      modifies this`load, this`channelCnt, channel, stream, value
      ensures Accounted() && (old(Valid()) ==> Valid())
      ensures ok <==> value !in old(stream[..]) && FirstFree(old(stream[..])) < CHANNEL_MAX
      ensures stream[..] == Added(old(stream[..]), value)
      ensures channelCnt == if ok then (old(channelCnt) + 1) % 256 else old(channelCnt)
      ensures ok ==> value.id == id
    {
      var found := Lookup(value);
      if found {
        return false;
      }
      ok := Add(value, sdkOk);
      if ok {
        channelCnt := (channelCnt + 1) % 256;
      }
    }

    /** v9_video_board_stream_del on the board it has found: the counters stay right
        exactly when the device did not refuse. */
    method DelOnce(value: Stream, sdkOk: bool) returns (ok: bool)
      requires Accounted()
      modifies this`load, this`channelCnt, channel, stream, value
      ensures Accounted()
      ensures ok <==> value in old(stream[..]) && (old(value.hwSync) ==> sdkOk)
      ensures stream[..] == Removed(old(stream[..]), value)
      ensures channelCnt == if ok then (old(channelCnt) - 1) % 256 else old(channelCnt)
      ensures old(Valid()) ==> (Valid() <==> !(value in old(stream[..]) && old(value.hwSync) && !sdkOk))
    {
      var found := Lookup(value);
      if !found {
        return false;
      }
      ok := Del(value, sdkOk);
      if ok {
        channelCnt := (channelCnt - 1) % 256;
      }
    }
  }

  // ----- placement on the least loaded board -----

  /** k is the first eligible board of least load, and that load is not above the ceiling. */
  ghost predicate IsFirstLeast(loads: seq<nat>, eligible: seq<bool>, k: nat)
    requires |eligible| == |loads|
  {
    && k < |loads| && eligible[k] && loads[k] <= LOAD_CEILING
    && (forall j :: 0 <= j < |loads| && eligible[j] ==> loads[k] <= loads[j])
    && (forall j :: 0 <= j < k && eligible[j] ==> loads[k] < loads[j])
  }

  /** One stream went to an eligible board of least load; the other boards keep their load. */
  ghost predicate Placement(before: seq<nat>, eligible: seq<bool>, fps: nat, after: seq<nat>)
    requires |eligible| == |before|
  {
    exists k: nat :: PlacedAt(before, eligible, fps, after, k)
  }

  ghost predicate PlacedAt(before: seq<nat>, eligible: seq<bool>, fps: nat, after: seq<nat>, k: nat)
    requires |eligible| == |before|
  {
    && k < |before| && eligible[k]
    && (forall j :: 0 <= j < |before| && eligible[j] ==> before[k] <= before[j])
    && after == before[k := before[k] + fps]
  }

  ghost predicate WithinSpread(loads: seq<nat>, eligible: seq<bool>, spread: nat)
    requires |eligible| == |loads|
  {
    forall i, j :: 0 <= i < |loads| && 0 <= j < |loads| && eligible[i] && eligible[j] ==> loads[i] <= loads[j] + spread
  }

  function Sum(s: seq<nat>): nat {
    if s == [] then 0 else s[0] + Sum(s[1..])
  }

  lemma {:induction false} SumUpdate(s: seq<nat>, k: nat, x: nat)
    requires k < |s|
    ensures Sum(s[k := x]) + s[k] == Sum(s) + x
  {
    if k == 0 {
      assert s[k := x][1..] == s[1..];
    } else {
      assert s[k := x][1..] == s[1..][k - 1 := x];
      SumUpdate(s[1..], k - 1, x);
    }
  }

  /** A run of automatic placements: the loads before each one, and after the last. */
  ghost predicate IsRun(trace: seq<seq<nat>>, eligible: seq<bool>, fps: seq<nat>) {
    && |trace| == |fps| + 1
    && (forall i :: 0 <= i < |trace| ==> |trace[i]| == |eligible|)
    && forall i :: 0 <= i < |fps| ==> Placement(trace[i], eligible, fps[i], trace[1..][i])
  }

  /** One placement keeps the loads within any spread that covers its frame rate. */
  lemma LeastStaysBalanced(before: seq<nat>, eligible: seq<bool>, k: nat, fps: nat, spread: nat)
    requires |eligible| == |before| && k < |before| && eligible[k]
    requires forall j :: 0 <= j < |before| && eligible[j] ==> before[k] <= before[j]
    requires fps <= spread && WithinSpread(before, eligible, spread)
    ensures WithinSpread(before[k := before[k] + fps], eligible, spread)
  {
    var after := before[k := before[k] + fps];
    forall i, j | 0 <= i < |after| && 0 <= j < |after| && eligible[i] && eligible[j]
      ensures after[i] <= after[j] + spread
    {
      assert before[i] <= before[j] + spread;
    }
  }

  lemma PlacementStaysBalanced(before: seq<nat>, eligible: seq<bool>, fps: nat, after: seq<nat>, spread: nat)
    requires |eligible| == |before| && Placement(before, eligible, fps, after)
    requires fps <= spread && WithinSpread(before, eligible, spread)
    ensures |after| == |before| && WithinSpread(after, eligible, spread)
    ensures Sum(after) == Sum(before) + fps
  {
    var k: nat :| PlacedAt(before, eligible, fps, after, k);
    SumUpdate(before, k, before[k] + fps);
    LeastStaysBalanced(before, eligible, k, fps, spread);
  }

  predicate NoneAbove(s: seq<nat>, largest: nat) {
    forall i :: 0 <= i < |s| ==> s[i] <= largest
  }

  /** Boards that start within the largest frame rate of each other stay so over every run,
      and no load is lost or invented on the way. */
  lemma {:induction false} RunStaysBalanced(trace: seq<seq<nat>>, eligible: seq<bool>, fps: seq<nat>, largest: nat)
    requires IsRun(trace, eligible, fps)
    requires NoneAbove(fps, largest)
    requires WithinSpread(trace[0], eligible, largest)
    ensures WithinSpread(trace[|fps|], eligible, largest)
    ensures Sum(trace[|fps|]) == Sum(trace[0]) + Sum(fps)
    decreases |fps|
  {
    if fps != [] {
      assert Placement(trace[0], eligible, fps[0], trace[1..][0]);
      PlacementStaysBalanced(trace[0], eligible, fps[0], trace[1], largest);
      RunTail(trace, eligible, fps);
      RunStaysBalanced(trace[1..], eligible, fps[1..], largest);
    }
  }

  lemma RunTail(trace: seq<seq<nat>>, eligible: seq<bool>, fps: seq<nat>)
    requires IsRun(trace, eligible, fps) && fps != []
    ensures IsRun(trace[1..], eligible, fps[1..])
  {
    var t := trace[1..];
    forall i | 0 <= i < |fps[1..]|
      ensures Placement(t[i], eligible, fps[1..][i], t[1..][i])
    {
      assert Placement(trace[i + 1], eligible, fps[i + 1], trace[1..][i + 1]);
    }
  }

  class Table {
    const boards: seq<Board>

    ghost const repr: set<object>

    /** Boards apart from each other, numbered from 1, each with sound accounts. */
    ghost predicate Apart() {
      && |boards| == BOARD_MAX
      && (forall b | b in boards :: b in repr && b.channel in repr && b.stream in repr)
      && (forall i, j :: 0 <= i < j < |boards| ==>
            boards[i] != boards[j] && boards[i].channel != boards[j].channel && boards[i].stream != boards[j].stream)
    }

    ghost predicate Identified()
      reads boards
    {
      && (forall i :: 0 <= i < |boards| ==> (boards[i].use <==> boards[i].id != 0) && boards[i].id <= BOARD_MAX)
      && (forall i, j :: 0 <= i < j < |boards| && boards[i].id != 0 ==> boards[i].id != boards[j].id)
    }

    ghost predicate Accounted()
      reads repr
    {
      Apart() && Identified() && forall b | b in boards :: b.Accounted()
    }

    ghost predicate Valid()
      reads repr
    {
      Apart() && Identified() && forall b | b in boards :: b.Valid()
    }

    /** All boards in use, with the numbers 1 to 5. */
    constructor ()
      ensures Valid() && fresh(repr)
      ensures forall i :: 0 <= i < BOARD_MAX ==> boards[i].id == i + 1
    {
      var bs: seq<Board> := [];
      ghost var r: set<object> := {};
      for i := 0 to BOARD_MAX
        invariant |bs| == i && fresh(r)
        invariant forall b | b in bs :: b in r && b.channel in r && b.stream in r && b.Valid()
        invariant forall k :: 0 <= k < i ==> bs[k].id == k + 1 && bs[k].use
        invariant forall k, l :: 0 <= k < l < i ==>
          bs[k] != bs[l] && bs[k].channel != bs[l].channel && bs[k].stream != bs[l].stream
      {
        var b := new Board(i + 1);
        bs := bs + [b];
        r := r + {b, b.channel, b.stream};
      }
      boards := bs;
      repr := r;
    }

    /** The slots of the i-th board; there are none past the last board. */
    ghost function Slots(i: nat): seq<Stream?>
      requires Apart()
      reads repr
    {
      if i < |boards| then assert boards[i] in boards; boards[i].stream[..] else []
    }

    /** What the streams on each board add up to. */
    ghost function Loads(): (l: seq<nat>)
      requires Apart()
      reads repr
      ensures |l| == |boards| && forall i :: 0 <= i < |boards| ==> l[i] == LoadOf(boards[i].stream[..])
    {
      seq(|boards|, i requires 0 <= i < |boards| reads repr requires Apart() => LoadOf(boards[i].stream[..]))
    }

    ghost function Eligible(): (e: seq<bool>)
      reads boards
      ensures |e| == |boards| && forall i :: 0 <= i < |boards| ==> e[i] == boards[i].Eligible()
    {
      seq(|boards|, i requires 0 <= i < |boards| reads boards => boards[i].Eligible())
    }

    /** The loads as they are stored. */
    ghost function Stored(): (l: seq<nat>)
      reads boards
      ensures |l| == |boards| && forall i :: 0 <= i < |boards| ==> l[i] == boards[i].load
    {
      seq(|boards|, i requires 0 <= i < |boards| reads boards => boards[i].load)
    }

    /** The board in use with this number, or the number of boards. */
    ghost function IndexFrom(id: int, i: nat): (k: nat)
      requires i <= |boards|
      reads boards
      ensures i <= k <= |boards| && (k < |boards| ==> boards[k].use && boards[k].id == id)
      ensures forall j :: i <= j < k ==> !(boards[j].use && boards[j].id == id)
      decreases |boards| - i
    {
      if i == |boards| || (boards[i].use && boards[i].id == id) then i else IndexFrom(id, i + 1)
    }

    /** The first eligible board of least load. */
    method GetMinLoad() returns (id: int)
      requires Accounted()
      ensures id == ERROR <==> !exists k: nat :: IsFirstLeast(Stored(), Eligible(), k)
      ensures id != ERROR ==> exists k: nat :: IsFirstLeast(Stored(), Eligible(), k) && id == boards[k].id
      ensures id != ERROR ==> exists b :: b in boards && b.id == id && b.use && b.active && !b.disabled && b.load <= LOAD_CEILING
      ensures id == ERROR ==> forall b :: b in boards && b.id != 0 && b.use && b.active && !b.disabled ==> b.load > LOAD_CEILING
    {
      var least := LOAD_CEILING;
      for i := 0 to BOARD_MAX
        invariant least <= LOAD_CEILING
        invariant forall j :: 0 <= j < i && boards[j].Eligible() ==> least <= boards[j].load
        invariant least == LOAD_CEILING || exists j :: 0 <= j < i && boards[j].Eligible() && boards[j].load == least
      {
        if boards[i].use && !boards[i].disabled && boards[i].id != 0 && boards[i].active {
          least := if boards[i].load < least then boards[i].load else least;
        }
      }
      for i := 0 to BOARD_MAX
        invariant forall j :: 0 <= j < i && boards[j].Eligible() ==> least != boards[j].load
      {
        if boards[i].use && !boards[i].disabled && boards[i].id != 0 && boards[i].active {
          if least == boards[i].load {
            assert IsFirstLeast(Stored(), Eligible(), i) && boards[i] in boards;
            return boards[i].id;
          }
        }
      }
      assert forall j :: 0 <= j < BOARD_MAX && boards[j].Eligible() ==> boards[j].load > LOAD_CEILING;
      return ERROR;
    }

    /** The number of the first free channel. */
    method StreamAlloc(id: int) returns (ch: int)
      requires Accounted()
      ensures var s := Slots(IndexFrom(id, 0)); ch == if FirstFree(s) < |s| then FirstFree(s) + 1 else ERROR
    {
      var i := FindBoard(id);
      if i < BOARD_MAX {
        ch := boards[i].FreeChannel();
      } else {
        ch := ERROR;
      }
    }

    /** What an operation on the k-th board may touch. */
    ghost function Part(k: nat): set<object> {
      if k < |boards| then {boards[k], boards[k].channel, boards[k].stream} else {}
    }

    /** The board in use with this number: the loop that every operation starts with. */
    method FindBoard(id: int) returns (i: nat)
      requires |boards| == BOARD_MAX
      ensures i == IndexFrom(id, 0)
    {
      i := 0;
      while i < BOARD_MAX && !(boards[i].use && boards[i].id == id)
        invariant i <= BOARD_MAX && IndexFrom(id, i) == IndexFrom(id, 0)
      {
        i := i + 1;
      }
    }

    /** What holds of every board is kept by an operation that keeps it of the one it touches. */
    twostate lemma AccountsKept(k: nat)
      requires old(Accounted()) && k < BOARD_MAX
      requires boards[k].Accounted() && SameSettings(boards[k])
      requires forall i | 0 <= i < BOARD_MAX && i != k ::
        unchanged(boards[i]) && unchanged(boards[i].channel) && unchanged(boards[i].stream)
      ensures Accounted() && forall i :: 0 <= i < BOARD_MAX ==> SameSettings(boards[i])
      ensures old(Valid()) && boards[k].Valid() ==> Valid()
      ensures old(Valid()) && Valid() ==> boards[k].Valid()
    {
      forall i | 0 <= i < BOARD_MAX
        ensures boards[i].Accounted() && SameSettings(boards[i]) && (i != k && old(boards[i].Valid()) ==> boards[i].Valid())
      {
        if i != k {
          var b := boards[i];
          assert b in boards && old(b.Accounted()) && unchanged(b);
        }
      }
      assert Identified();
    }

    method StreamAdd(id: int, value: Stream, sdkOk: bool) returns (ok: bool)
      requires Accounted()
      modifies Part(IndexFrom(id, 0)), value
      ensures Accounted() && (old(Valid()) ==> Valid())
      ensures var k := old(IndexFrom(id, 0)); var s := old(Slots(k));
        && (ok <==> value !in s && FirstFree(s) < |s|)
        && Slots(k) == Added(s, value)
        && (k < BOARD_MAX ==> SameSettings(boards[k]))
    {
      var i := FindBoard(id);
      if i == BOARD_MAX {
        return false;
      }
      ok := boards[i].AddOnce(value, sdkOk);
      AccountsKept(i);
    }

    method StreamDel(id: int, value: Stream, sdkOk: bool) returns (ok: bool)
      requires Accounted()
      modifies Part(IndexFrom(id, 0)), value
      ensures Accounted()
      ensures var k := old(IndexFrom(id, 0)); var s := old(Slots(k));
        && (ok <==> value in s && (old(value.hwSync) ==> sdkOk))
        && Slots(k) == Removed(s, value)
        && (k < BOARD_MAX ==> SameSettings(boards[k]))
        && (old(Valid()) ==> (Valid() <==> !(value in s && old(value.hwSync) && !sdkOk)))
    {
      var i := FindBoard(id);
      if i == BOARD_MAX {
        return false;
      }
      ok := boards[i].DelOnce(value, sdkOk);
      AccountsKept(i);
    }

    /** v9_video_board_lookup: it looks at the number only, which a board out of use does not have. */
    method LookupBoard(id: nat) returns (i: nat)
      requires Accounted() && id != 0
      ensures i == IndexFrom(id, 0)
    {
      i := 0;
      while i < BOARD_MAX && boards[i].id != id
        invariant i <= BOARD_MAX && IndexFrom(id, i) == IndexFrom(id, 0)
      {
        i := i + 1;
      }
    }

    method LookupByIdAndCh(id: nat, ch: nat) returns (stream: Stream?)
      requires Valid() && (id > BOARD_MAX || IndexFrom(id, 0) < BOARD_MAX)
      ensures id > BOARD_MAX ==> stream == null
      ensures id <= BOARD_MAX ==>
        var s := Slots(IndexFrom(id, 0));
        stream == if ChannelSlot(s, ch) < |s| then s[ChannelSlot(s, ch)] else null
    {
      if id > BOARD_MAX {
        return null;
      }
      var k := LookupBoard(id);
      stream := boards[k].LookupChannel(ch);
    }

    /** Where an automatic or a given board number leads. */
    ghost function Target(id: nat): (k: nat)
      requires Accounted()
      reads repr
    {
      if id != 0 then IndexFrom(id + 1, 0)
      else if exists k: nat :: IsFirstLeast(Stored(), Eligible(), k) then
        var k: nat :| IsFirstLeast(Stored(), Eligible(), k); k
      else BOARD_MAX
    }

    /** With the numbers 1 to 5, a given number means the board after the one that has it, so that the first board
        is reached by leaving the number open only. */
    lemma GivenNumber(id: nat)
      requires Accounted() && id != 0
      requires forall i :: 0 <= i < BOARD_MAX ==> boards[i].id == i + 1
      ensures Target(id) == if id < BOARD_MAX then id else BOARD_MAX
      ensures Target(id) < BOARD_MAX ==> boards[Target(id)].id == id + 1
    {
      var k := IndexFrom(id + 1, 0);
      assert id < BOARD_MAX ==> boards[id].use && boards[id].id == id + 1;
    }

    lemma TargetIsFirstLeast(k: nat)
      requires Accounted() && IsFirstLeast(Stored(), Eligible(), k)
      ensures Target(0) == k == IndexFrom(boards[k].id, 0)
    {
      var t := Target(0);
      assert IsFirstLeast(Stored(), Eligible(), t);
      assert t == k;
      var j := IndexFrom(boards[k].id, 0);
      assert boards[k].Eligible() && j <= k;
    }

    method ChooseBoard(id: Uint8) returns (iid: int)
      requires Accounted()
      ensures IndexFrom(iid, 0) == Target(id) && (id != 0 ==> iid == id + 1)
      ensures iid == ERROR || 1 <= iid
      ensures id == 0 && iid != ERROR ==> Target(id) < BOARD_MAX
    {
      if id != 0 {
        return id + 1;
      }
      iid := GetMinLoad();
      if iid != ERROR {
        ghost var k: nat :| IsFirstLeast(Stored(), Eligible(), k) && iid == boards[k].id;
        assert boards[k].Eligible();
        TargetIsFirstLeast(k);
      }
    }

    /** A free channel, or the given one if no stream of that board has it. */
    method ChooseChannel(iid: int, ch: Uint8) returns (chid: int)
      requires Valid() && (iid == ERROR || 1 <= iid)
      requires ch != 0 && iid != ERROR ==> iid > BOARD_MAX || IndexFrom(iid, 0) < BOARD_MAX
      ensures var s := Slots(IndexFrom(iid, 0));
        chid == if ch == 0 then (if FirstFree(s) < |s| then FirstFree(s) + 1 else ERROR)
                else (if ChannelSlot(s, ch) < |s| then ERROR else ch)
    {
      if ch == 0 {
        chid := StreamAlloc(iid);
        return;
      }
      // The number is passed on in 8 bits, so that no board has that of an error.
      var taken := LookupByIdAndCh(if iid == ERROR then 255 else iid, ch);
      chid := if taken != null then ERROR else ch;
    }

    /** No board carries more than its counter can hold. */
    ghost predicate NoOverflow()
      requires Apart()
      reads repr
    {
      forall i :: 0 <= i < |boards| ==> Loads()[i] < TWO_TO_THE_32
    }

    /** Without overflow the stored loads are the real ones. */
    lemma StoredAreLoads()
      requires Valid() && NoOverflow()
      ensures Stored() == Loads()
    {
      forall i | 0 <= i < BOARD_MAX
        ensures Stored()[i] == Loads()[i]
      {
        assert boards[i] in boards && boards[i].Accounted();
      }
    }

    twostate lemma LoadsAfterAdd(k: nat, new v: Stream)
      requires old(Valid()) && k < BOARD_MAX
      requires v !in old(Slots(k)) && FirstFree(old(Slots(k))) < |old(Slots(k))|
      requires Slots(k) == Added(old(Slots(k)), v)
      requires forall i | 0 <= i < BOARD_MAX && i != k :: unchanged(boards[i].stream)
      ensures Loads() == old(Loads())[k := old(Loads())[k] + v.fps]
    {
      var s := old(Slots(k));
      SlotUpdate(s, FirstFree(s), v);
      forall i | 0 <= i < BOARD_MAX
        ensures Loads()[i] == old(Loads())[k := old(Loads())[k] + v.fps][i]
      {
        if i != k { assert boards[i].stream[..] == old(boards[i].stream[..]); }
      }
    }

    twostate lemma AddIsPlacement(k: nat, new v: Stream)
      requires old(Valid()) && k < BOARD_MAX && old(IsFirstLeast(Loads(), Eligible(), k))
      requires v !in old(Slots(k)) && FirstFree(old(Slots(k))) < |old(Slots(k))|
      requires Slots(k) == Added(old(Slots(k)), v)
      requires forall i | 0 <= i < BOARD_MAX && i != k :: unchanged(boards[i].stream)
      ensures Placement(old(Loads()), old(Eligible()), v.fps, Loads())
    {
      LoadsAfterAdd(k, v);
      assert PlacedAt(old(Loads()), old(Eligible()), v.fps, Loads(), k);
    }

    /** Without overflow an open board number leads to an eligible board of least real load. */
    lemma TargetIsLeast()
      requires Valid() && NoOverflow()
      ensures Target(0) < BOARD_MAX ==> IsFirstLeast(Loads(), Eligible(), Target(0))
    {
      StoredAreLoads();
    }

    /** A new stream for the chosen channel, added to the board with this number. */
    method AddNew(iid: int, chid: nat, fps: Uint32, url: string, sdkOk: bool) returns (ok: bool, stream: Stream)
      requires Valid()
      modifies Part(IndexFrom(iid, 0))
      ensures Valid() && fresh(stream) && stream.ch == chid && stream.fps == (if fps != 0 then fps else FPS_DEFAULT)
      ensures var k := old(IndexFrom(iid, 0)); var s := old(Slots(k));
        && (ok <==> FirstFree(s) < |s|)
        && stream !in s && Slots(k) == Added(s, stream)
        && (k < BOARD_MAX ==> SameSettings(boards[k]))
    {
      stream := new Stream(chid, fps, url);
      assert stream !in Slots(IndexFrom(iid, 0));
      ok := StreamAdd(iid, stream, sdkOk);
    }

    /** Chooses the board, then the channel, and adds. */
    method AddApi(id: Uint8, ch: Uint8, fps: Uint32, url: string, sdkOk: bool) returns (ok: bool, stream: Stream?)
      requires Valid()
      requires id != 0 && ch != 0 ==> id + 1 > BOARD_MAX || IndexFrom(id + 1, 0) < BOARD_MAX
      modifies Part(Target(id))
      ensures Valid()
      ensures var k := old(Target(id)); var s := old(Slots(k));
        && (ok <==> Admits(s, ch))
        && (ok ==> IsNewStream(stream, s, ch, fps))
        && Slots(k) == (if ok then Added(s, stream) else s)
        && (k < BOARD_MAX ==> SameSettings(boards[k]))
    {
      ghost var k := Target(id);
      ghost var s := Slots(k);
      var iid := ChooseBoard(id);
      var chid := ChooseChannel(iid, ch);
      if chid > 0 {
        ok, stream := AddNew(iid, chid, fps, url, sdkOk);
      } else {
        ok, stream := false, null;
      }
    }

    /** An add that leaves board and channel open: each one is a placement step of a run. */
    method AddAnywhere(fps: Uint32, url: string, sdkOk: bool) returns (ok: bool, stream: Stream?)
      requires Valid() && NoOverflow()
      modifies repr
      ensures Valid() && Eligible() == old(Eligible())
      ensures ok ==> stream != null && stream.fps == (if fps != 0 then fps else FPS_DEFAULT)
      ensures ok ==> Placement(old(Loads()), old(Eligible()), stream.fps, Loads())
      ensures !ok ==> Loads() == old(Loads())
    {
      ghost var k := Target(0);
      PartInRepr(k);
      TargetIsLeast();
      ok, stream := AddApi(0, 0, fps, url, sdkOk);
      if ok {
        AddDone(k, stream);
      } else {
        AddNotDone(k);
      }
    }

    twostate lemma AddDone(k: nat, new v: Stream)
      requires old(Valid()) && Apart() && k < BOARD_MAX && old(IsFirstLeast(Loads(), Eligible(), k))
      requires v !in old(Slots(k)) && FirstFree(old(Slots(k))) < |old(Slots(k))|
      requires Slots(k) == Added(old(Slots(k)), v) && SameSettings(boards[k])
      requires forall i | 0 <= i < BOARD_MAX && i != k :: unchanged(boards[i]) && unchanged(boards[i].stream)
      ensures Eligible() == old(Eligible()) && Placement(old(Loads()), old(Eligible()), v.fps, Loads())
    {
      AddKeepsEligible(k);
      AddIsPlacement(k, v);
    }

    twostate lemma AddNotDone(k: nat)
      requires Apart() && Slots(k) == old(Slots(k)) && (k < BOARD_MAX ==> SameSettings(boards[k]))
      requires forall i | 0 <= i < BOARD_MAX && i != k :: unchanged(boards[i]) && unchanged(boards[i].stream)
      ensures Eligible() == old(Eligible()) && Loads() == old(Loads())
    {
      AddKeepsEligible(k);
      LoadsKept(k);
    }

    twostate lemma AddKeepsEligible(k: nat)
      requires Apart()
      requires forall i | 0 <= i < BOARD_MAX && i != k :: unchanged(boards[i])
      requires k < BOARD_MAX ==> SameSettings(boards[k])
      ensures Eligible() == old(Eligible())
    {
      forall i | 0 <= i < BOARD_MAX
        ensures Eligible()[i] == old(Eligible())[i]
      {
        if i != k { assert unchanged(boards[i]); }
      }
    }

    twostate lemma LoadsKept(k: nat)
      requires Apart() && Slots(k) == old(Slots(k))
      requires forall i | 0 <= i < BOARD_MAX && i != k :: unchanged(boards[i].stream)
      ensures Loads() == old(Loads())
    {
      forall i | 0 <= i < BOARD_MAX
        ensures Loads()[i] == old(Loads())[i]
      {
        if i != k { assert boards[i].stream[..] == old(boards[i].stream[..]); }
      }
    }

    lemma PartInRepr(k: nat)
      requires Apart()
      ensures Part(k) <= repr
    {
      if k < |boards| { assert boards[k] in boards; }
    }

    /** A run of adds with nothing given: however many of them succeed, the loads of the eligible boards stay
        within the largest frame rate of each other, and they are just what was placed. */
    method AddRun(cameras: seq<Camera>, ghost largest: nat) returns (placed: seq<nat>, ghost trace: seq<seq<nat>>)
      requires Valid()
      requires Fits(Loads(), Rates(cameras))
      requires NoneAbove(Rates(cameras), largest)
      requires WithinSpread(Loads(), Eligible(), largest)
      modifies repr
      ensures Valid() && Eligible() == old(Eligible())
      ensures IsRunTo(trace, Eligible(), placed, old(Loads()), Loads())
      ensures WithinSpread(Loads(), Eligible(), largest)
      ensures Sum(Loads()) == Sum(old(Loads())) + Sum(placed)
    {
      ghost var eligible, start, rates := Eligible(), Loads(), Rates(cameras);
      ghost var loads := start;
      placed, trace := [], [start];
      assert rates[0..] == rates;
      for n := 0 to |cameras|
        invariant Valid() && Eligible() == eligible && Loads() == loads && |loads| == |boards|
        invariant IsRunTo(trace, eligible, placed, start, loads) && Fits(loads, rates[n..])
        invariant NoneAbove(placed, largest)
      {
        FitsNext(loads, rates, n);
        var ok, stream := AddAnywhere(cameras[n].fps, cameras[n].url, cameras[n].sdkOk);
        if ok {
          ghost var next := Loads();
          RunGrows(trace, eligible, placed, start, loads, rates, n, next);
          placed, trace, loads := placed + [stream.fps], trace + [next], next;
        }
      }
      RunStaysBalanced(trace, eligible, placed, largest);
    }
  }

  /** What an add with nothing given is told: the frame rate (0 for the default), the address, and how the
      device answers. */
  datatype Camera = Camera(fps: Uint32, url: string, sdkOk: bool)

  function Rates(cameras: seq<Camera>): (r: seq<nat>)
    ensures |r| == |cameras|
    ensures forall i :: 0 <= i < |r| ==> r[i] == if cameras[i].fps != 0 then cameras[i].fps else FPS_DEFAULT
  {
    seq(|cameras|, i requires 0 <= i < |cameras| => if cameras[i].fps != 0 then cameras[i].fps else FPS_DEFAULT)
  }

  lemma PlacementGrows(before: seq<nat>, eligible: seq<bool>, fps: nat, after: seq<nat>)
    requires |eligible| == |before| && Placement(before, eligible, fps, after)
    ensures |after| == |before| && forall i :: 0 <= i < |before| ==> after[i] <= before[i] + fps
  {
    var k: nat :| PlacedAt(before, eligible, fps, after, k);
  }

  /** Whatever board gets them all, its counter does not overflow. */
  ghost predicate Fits(loads: seq<nat>, rates: seq<nat>) {
    forall i :: 0 <= i < |loads| ==> loads[i] + Sum(rates) < TWO_TO_THE_32
  }

  lemma FitsNext(loads: seq<nat>, rates: seq<nat>, n: nat)
    requires n < |rates| && Fits(loads, rates[n..])
    ensures Sum(rates[n..]) == rates[n] + Sum(rates[n + 1..])
    ensures Fits(loads, rates[n + 1..]) && forall i :: 0 <= i < |loads| ==> loads[i] < TWO_TO_THE_32
  {
    assert rates[n..][1..] == rates[n + 1..];
  }

  /** A run that leads from one distribution of the load to another. */
  ghost predicate IsRunTo(trace: seq<seq<nat>>, eligible: seq<bool>, placed: seq<nat>, start: seq<nat>, loads: seq<nat>) {
    IsRun(trace, eligible, placed) && trace[0] == start && trace[|placed|] == loads
  }

  /** One more placement makes a longer run, and leaves room for the rest. */
  lemma RunGrows(trace: seq<seq<nat>>, eligible: seq<bool>, placed: seq<nat>, start: seq<nat>, loads: seq<nat>,
                 rates: seq<nat>, n: nat, after: seq<nat>)
    requires n < |rates| && IsRunTo(trace, eligible, placed, start, loads) && |eligible| == |loads|
    requires Placement(loads, eligible, rates[n], after) && Fits(loads, rates[n..])
    ensures |after| == |loads| && IsRunTo(trace + [after], eligible, placed + [rates[n]], start, after)
    ensures Fits(after, rates[n + 1..])
  {
    var t, p := trace + [after], placed + [rates[n]];
    PlacementGrows(loads, eligible, rates[n], after);
    FitsNext(loads, rates, n);
    forall i | 0 <= i < |p|
      ensures Placement(t[i], eligible, p[i], t[1..][i])
    {
      if i < |placed| { assert Placement(trace[i], eligible, placed[i], trace[1..][i]); }
    }
  }

  /** Whether an add succeeds: there is a free slot, and a number given by hand is not taken. */
  ghost predicate Admits(s: seq<Stream?>, ch: nat) {
    FirstFree(s) < |s| && (ch == 0 || ChannelSlot(s, ch) == |s|)
  }

  /** What is added has the number asked for or that of its slot, and the frame rate or the default one. */
  ghost predicate IsNewStream(v: Stream?, s: seq<Stream?>, ch: nat, fps: Uint32) {
    && v != null && v !in s
    && v.fps == (if fps != 0 then fps else FPS_DEFAULT)
    && v.ch == (if ch == 0 then FirstFree(s) + 1 else ch)
  }

  twostate predicate SameSettings(b: Board)
    reads b
  {
    unchanged(b`id, b`use, b`active, b`disabled)
  }
}
