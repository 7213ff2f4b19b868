/** Numbering the FPGA slots: mailbox devices in directory order, sorted by PCI address. */
module Slots {
  import opened Bits

  const FPGA_SLOT_MAX: nat := 8
  const EINVAL: int := 22
  const ENOENT: int := 2
  const FPGA_ERR_PCI_MISSING: int := 20

  type u16 = x: int | 0 <= x < 0x1_0000

  /** A slot: the address of its mailbox function, and whatever else is known of it. */
  datatype Spec = Spec(domain: u16, bus: u8, dev: u8, func: u8, info: nat)

  const EMPTY: Spec := Spec(0, 0, 0, 0, 0)

  /** fpga_slot_spec_is_initialized */
  predicate Initialized(s: Spec) { !(s.domain == 0 && s.bus == 0 && s.dev == 0 && s.func == 0) }

  /** fpga_pci_slot_spec_compare */
  function Compare(a: Spec, b: Spec): int {
    if Initialized(a) != Initialized(b) then (if Initialized(a) then -1 else 1)
    else if a.domain != b.domain then a.domain - b.domain
    else if a.bus != b.bus then a.bus - b.bus
    else if a.dev != b.dev then a.dev - b.dev
    else a.func - b.func
  }

  predicate SameAddress(a: Spec, b: Spec) {
    a.domain == b.domain && a.bus == b.bus && a.dev == b.dev && a.func == b.func
  }

  /** The comparator is a total preorder, equal on equal addresses only, and puts entries
      that are not initialised behind all others. */
  lemma TotalPreorder(a: Spec, b: Spec, c: Spec)
    ensures Compare(a, a) == 0
    ensures Compare(a, b) <= 0 || Compare(b, a) <= 0
    ensures Compare(a, b) <= 0 && Compare(b, a) <= 0 <==> SameAddress(a, b)
    ensures Compare(a, b) <= 0 && Compare(b, c) <= 0 ==> Compare(a, c) <= 0
    ensures Initialized(a) && !Initialized(b) ==> Compare(a, b) < 0
  {
  }

  // ---- Sorting ------------------------------------------------------------------------------------

  predicate Sorted(s: seq<Spec>) {
    forall i, j :: 0 <= i < j < |s| ==> Compare(s[i], s[j]) <= 0
  }

  /** Entries of equal address are equal: devices differ in address, empty ones do not
      differ at all. */
  predicate Unambiguous(s: seq<Spec>) {
    forall i, j :: 0 <= i < |s| && 0 <= j < |s| && SameAddress(s[i], s[j]) ==> s[i] == s[j]
  }

  lemma Members(s: seq<Spec>, t: seq<Spec>, i: nat)
    requires multiset(s) == multiset(t) && i < |s|
    ensures exists j :: 0 <= j < |t| && t[j] == s[i]
  {
    assert s[i] in multiset(s);
    assert s[i] in multiset(t);
  }

  lemma SameLength(s: seq<Spec>, t: seq<Spec>)
    requires multiset(s) == multiset(t)
    ensures |s| == |t|
  {
    assert |multiset(s)| == |s| && |multiset(t)| == |t|;
  }

  lemma UnambiguousTail(s: seq<Spec>)
    requires s != [] && Unambiguous(s)
    ensures Unambiguous(s[1..])
  {
  }

  lemma FirstIsLeast(s: seq<Spec>, k: nat)
    requires Sorted(s) && k < |s|
    ensures Compare(s[0], s[k]) <= 0
  {
  }

  lemma SameHead(s: seq<Spec>, t: seq<Spec>)
    requires multiset(s) == multiset(t) && Sorted(s) && Sorted(t) && Unambiguous(s) && s != [] && t != []
    ensures s[0] == t[0]
  {
    hide Compare, Sorted, SameAddress;
    Members(s, t, 0);
    Members(t, s, 0);
    var j :| 0 <= j < |t| && t[j] == s[0];
    var k :| 0 <= k < |s| && s[k] == t[0];
    FirstIsLeast(s, k);
    FirstIsLeast(t, j);
    TotalPreorder(s[0], t[0], s[0]);
    assert SameAddress(s[0], s[k]);
  }

  lemma SameTail(s: seq<Spec>, t: seq<Spec>)
    requires multiset(s) == multiset(t) && s != [] && t != [] && s[0] == t[0]
    ensures multiset(s[1..]) == multiset(t[1..])
  {
    assert s == [s[0]] + s[1..] && t == [t[0]] + t[1..];
    assert multiset(s[1..]) == multiset(s) - multiset{s[0]};
    assert multiset(t[1..]) == multiset(t) - multiset{t[0]};
  }

  /** Whatever sorting algorithm is used, the result is the same. */
  lemma {:induction false} SortUnique(s: seq<Spec>, t: seq<Spec>)
    requires multiset(s) == multiset(t) && Sorted(s) && Sorted(t) && Unambiguous(s)
    ensures s == t
    decreases |s|
  {
    hide Compare, SameAddress;
    SameLength(s, t);
    if s != [] {
      SameHead(s, t);
      SameTail(s, t);
      UnambiguousTail(s);
      SortUnique(s[1..], t[1..]);
      assert s == [s[0]] + s[1..] && t == [t[0]] + t[1..];
    }
  }

  /** Position of an entry in a sorted list. */
  function Insert(x: Spec, s: seq<Spec>): (r: seq<Spec>)
    ensures multiset(r) == multiset([x]) + multiset(s) && |r| == |s| + 1
  {
    if s == [] || Compare(x, s[0]) <= 0 then [x] + s
    else
      assert s == [s[0]] + s[1..];
      [s[0]] + Insert(x, s[1..])
  }

  function Sort(s: seq<Spec>): (r: seq<Spec>)
    ensures multiset(r) == multiset(s) && |r| == |s|
  {
    if s == [] then []
    else
      assert s == [s[0]] + s[1..];
      Insert(s[0], Sort(s[1..]))
  }

  lemma {:induction false} InsertSorted(x: Spec, s: seq<Spec>)
    requires Sorted(s)
    ensures Sorted(Insert(x, s))
    decreases |s|
  {
    if s == [] {
    } else if Compare(x, s[0]) <= 0 {
      forall j | 0 <= j < |s| ensures Compare(x, s[j]) <= 0 {
        TotalPreorder(x, s[0], s[j]);
      }
    } else {
      var tail := Insert(x, s[1..]);
      InsertSorted(x, s[1..]);
      TotalPreorder(x, s[0], x);
      forall j | 0 <= j < |tail| ensures Compare(s[0], tail[j]) <= 0 {
        assert tail[j] in multiset(tail);
        assert tail[j] in multiset([x]) + multiset(s[1..]);
        if tail[j] != x {
          assert tail[j] in s[1..];
        }
      }
    }
  }

  lemma {:induction false} SortSorted(s: seq<Spec>)
    ensures Sorted(Sort(s))
    decreases |s|
  {
    if s != [] {
      SortSorted(s[1..]);
      InsertSorted(s[0], Sort(s[1..]));
    }
  }

  // ---- Scanning -----------------------------------------------------------------------------------

  type Code = x: int | x != 0 witness 1

  /** A directory entry: not a mailbox device, one, or one whose resources cannot be read. */
  datatype Entry = Other | Mailbox(spec: Spec) | Broken(code: Code)

  datatype Scan = Table(slots: seq<Spec>) | Failure(code: Code)

  /** Mailbox devices in directory order, up to the given number of them. */
  function Found(dir: seq<Entry>, room: nat): Scan
    decreases |dir|
  {
    if dir == [] || room == 0 then Table([])
    else
      match dir[0]
      case Other => Found(dir[1..], room)
      case Broken(code) => Failure(code)
      case Mailbox(s) =>
        match Found(dir[1..], room - 1)
        case Failure(code) => Failure(code)
        case Table(slots) => Table([s] + slots)
  }

  function Pad(s: seq<Spec>): (r: seq<Spec>)
    requires |s| <= FPGA_SLOT_MAX
    ensures |r| == FPGA_SLOT_MAX
  {
    s + seq(FPGA_SLOT_MAX - |s|, i => EMPTY)
  }

  lemma {:induction false} FoundFits(dir: seq<Entry>, room: nat)
    ensures Found(dir, room).Table? ==> |Found(dir, room).slots| <= room
    decreases |dir|
  {
    if dir != [] && room > 0 {
      match dir[0]
      case Other => FoundFits(dir[1..], room);
      case Broken(_) =>
      case Mailbox(_) => FoundFits(dir[1..], room - 1);
    }
  }

  /** fpga_pci_mbox_scan: the sorted table of all eight slots. */
  function MboxScan(dir: seq<Entry>): Scan {
    FoundFits(dir, FPGA_SLOT_MAX);
    match Found(dir, FPGA_SLOT_MAX)
    case Failure(code) => Failure(code)
    case Table(slots) => if slots == [] then Failure(FPGA_ERR_PCI_MISSING) else Table(Sort(Pad(slots)))
  }

  /** The devices of a directory, however many. */
  function Devices(dir: seq<Entry>): seq<Spec> {
    if dir == [] then [] else (if dir[0].Mailbox? then [dir[0].spec] else []) + Devices(dir[1..])
  }

  /** Every mailbox device can be read. */
  predicate Readable(dir: seq<Entry>) { forall i :: 0 <= i < |dir| ==> !dir[i].Broken? }

  lemma {:induction false} FoundAll(dir: seq<Entry>, room: nat)
    requires Readable(dir) && |Devices(dir)| <= room
    ensures Found(dir, room) == Table(Devices(dir))
    decreases |dir|
  {
    if dir != [] {
      if dir[0].Mailbox? { FoundAll(dir[1..], room - 1); } else { FoundAll(dir[1..], room); }
      if room == 0 { FoundAll(dir[1..], 0); }
    }
  }

  /** Once the table is full, the rest of the directory is not looked at. */
  lemma {:induction false} FoundFirst(dir: seq<Entry>, rest: seq<Entry>, room: nat)
    requires Readable(dir) && room <= |Devices(dir)|
    ensures Found(dir + rest, room) == Table(Devices(dir)[..room])
    decreases |dir|
  {
    if dir != [] && room > 0 {
      assert (dir + rest)[0] == dir[0] && (dir + rest)[1..] == dir[1..] + rest;
      if dir[0].Mailbox? {
        FoundFirst(dir[1..], rest, room - 1);
        assert Devices(dir)[..room] == [dir[0].spec] + Devices(dir[1..])[..room - 1];
      } else {
        FoundFirst(dir[1..], rest, room);
      }
    }
  }

  lemma {:induction false} DevicesConcat(x: seq<Entry>, y: seq<Entry>)
    ensures Devices(x + y) == Devices(x) + Devices(y)
    decreases |x|
  {
    var all := x + y;
    if x == [] {
      assert all == y;
    } else {
      assert all[0] == x[0] && all[1..] == x[1..] + y;
      DevicesConcat(x[1..], y);
      var head: seq<Spec> := if x[0].Mailbox? then [x[0].spec] else [];
      assert head + (Devices(x[1..]) + Devices(y)) == (head + Devices(x[1..])) + Devices(y);
    }
  }

  lemma CutOut<T>(y: seq<T>, j: nat)
    requires j < |y|
    ensures y == y[..j] + ([y[j]] + y[j + 1..])
    ensures multiset(y) - multiset{y[j]} == multiset(y[..j] + y[j + 1..])
  {
  }

  lemma WithoutOne(y: seq<Entry>, j: nat)
    requires j < |y|
    ensures multiset(Devices(y)) == multiset(Devices(y[..j] + y[j + 1..])) + multiset(Devices([y[j]]))
  {
    hide Devices;
    CutOut(y, j);
    DevicesConcat(y[..j], [y[j]] + y[j + 1..]);
    DevicesConcat([y[j]], y[j + 1..]);
    DevicesConcat(y[..j], y[j + 1..]);
  }

  lemma OneOut(x: seq<Entry>, y: seq<Entry>, j: nat)
    requires multiset(x) == multiset(y) && x != [] && j < |y| && y[j] == x[0]
    ensures multiset(x[..0] + x[1..]) == multiset(y[..j] + y[j + 1..]) && |x[..0] + x[1..]| < |x|
  {
    CutOut(x, 0);
    CutOut(y, j);
  }

  lemma NoneLeft(y: seq<Entry>)
    requires multiset([]) == multiset(y)
    ensures y == []
  {
    assert |multiset(y)| == 0;
  }

  /** The order of the directory does not matter for which devices there are. */
  lemma {:induction false} DevicesPermuted(x: seq<Entry>, y: seq<Entry>)
    requires multiset(x) == multiset(y)
    ensures multiset(Devices(x)) == multiset(Devices(y))
    decreases |x|
  {
    hide Devices;
    if x == [] {
      NoneLeft(y);
    } else {
      assert x[0] in multiset(x);
      assert x[0] in multiset(y);
      var j :| 0 <= j < |y| && y[j] == x[0];
      OneOut(x, y, j);
      WithoutOne(x, 0);
      WithoutOne(y, j);
      DevicesPermuted(x[..0] + x[1..], y[..j] + y[j + 1..]);
    }
  }

  /** Those that cannot be read fail with this code. */
  predicate FailWith(dir: seq<Entry>, code: Code) {
    forall i :: 0 <= i < |dir| && dir[i].Broken? ==> dir[i].code == code
  }

  /** While there is room for all that can be read, one device that cannot fails the scan,
      wherever it is listed. */
  lemma {:induction false} BrokenFails(dir: seq<Entry>, room: nat, code: Code)
    requires |Devices(dir)| < room && !Readable(dir) && FailWith(dir, code)
    ensures Found(dir, room) == Failure(code)
    decreases |dir|
  {
    if dir != [] && !dir[0].Broken? { BrokenFails(dir[1..], if dir[0].Mailbox? then room - 1 else room, code); }
  }

  /** All mailbox devices have an address, and no two the same. */
  predicate Addressed(s: seq<Spec>) {
    && (forall i :: 0 <= i < |s| ==> Initialized(s[i]))
    && (forall i, j :: 0 <= i < j < |s| ==> !SameAddress(s[i], s[j]))
  }

  lemma PadUnambiguous(s: seq<Spec>)
    requires |s| <= FPGA_SLOT_MAX && Addressed(s)
    ensures Unambiguous(Pad(s))
  {
  }

  lemma PadPermuted(s: seq<Spec>, t: seq<Spec>)
    requires multiset(s) == multiset(t) && |s| <= FPGA_SLOT_MAX
    ensures |t| == |s| && multiset(Pad(s)) == multiset(Pad(t))
  {
  }

  /** Slot numbering is canonical: with at most eight devices of distinct addresses the
      table does not depend on the order in which the directory lists them. */
  lemma Canonical(x: seq<Entry>, y: seq<Entry>)
    requires multiset(x) == multiset(y) && |Devices(x)| <= FPGA_SLOT_MAX && Addressed(Devices(x))
    requires Readable(x)
    ensures MboxScan(x) == MboxScan(y)
  {
    NoneBroken(x, y);
    DevicesPermuted(x, y);
    var s, t := Devices(x), Devices(y);
    PadPermuted(s, t);
    FoundAll(x, FPGA_SLOT_MAX);
    FoundAll(y, FPGA_SLOT_MAX);
    PadUnambiguous(s);
    SortSorted(Pad(s));
    SortSorted(Pad(t));
    UnambiguousPermuted(Pad(s), Sort(Pad(s)));
    SortUnique(Sort(Pad(s)), Sort(Pad(t)));
  }

  lemma NoneBroken(x: seq<Entry>, y: seq<Entry>)
    requires multiset(x) == multiset(y) && Readable(x)
    ensures Readable(y)
  {
    forall i | 0 <= i < |y| ensures !y[i].Broken? {
      assert y[i] in multiset(y);
      assert y[i] in multiset(x);
    }
  }

  lemma UnambiguousPermuted(s: seq<Spec>, t: seq<Spec>)
    requires multiset(s) == multiset(t) && Unambiguous(s)
    ensures Unambiguous(t)
  {
    forall i, j | 0 <= i < |t| && 0 <= j < |t| && SameAddress(t[i], t[j]) ensures t[i] == t[j] {
      Members(t, s, i);
      Members(t, s, j);
    }
  }

  /** The directory with its entry i listed first. */
  function Promote(x: seq<Entry>, i: nat): seq<Entry>
    requires i < |x|
  {
    [x[i]] + (x[..i] + x[i + 1..])
  }

  lemma PromotePermutes(x: seq<Entry>, i: nat)
    requires i < |x|
    ensures multiset(Promote(x, i)) == multiset(x)
  {
    CutOut(x, i);
  }

  /** The entry of the k-th device. */
  lemma {:induction false} EntryOf(x: seq<Entry>, k: nat) returns (i: nat)
    requires k < |Devices(x)|
    ensures i < |x| && x[i] == Mailbox(Devices(x)[k])
    decreases |x|
  {
    if x[0].Mailbox? && k == 0 { return 0; }
    i := EntryOf(x[1..], if x[0].Mailbox? then k - 1 else k);
    i := i + 1;
  }

  /** A full table holds the first eight devices and nothing else. */
  lemma ScanFull(dir: seq<Entry>, rest: seq<Entry>)
    requires Readable(dir) && |Devices(dir)| >= FPGA_SLOT_MAX
    ensures MboxScan(dir + rest).Table?
    ensures multiset(MboxScan(dir + rest).slots) == multiset(Devices(dir)[..FPGA_SLOT_MAX])
  {
    hide Sort;
    FoundFirst(dir, rest, FPGA_SLOT_MAX);
    var first := Devices(dir)[..FPGA_SLOT_MAX];
    assert Pad(first) == first;
  }

  /** The ninth device is left out of the table, but not when it is listed first. */
  lemma NinthDevice(x: seq<Entry>) returns (y: seq<Entry>)
    requires Readable(x) && |Devices(x)| > FPGA_SLOT_MAX && Addressed(Devices(x))
    ensures multiset(y) == multiset(x) && MboxScan(y) != MboxScan(x)
  {
    hide MboxScan;
    var d := Devices(x);
    var i := EntryOf(x, FPGA_SLOT_MAX);
    y := Promote(x, i);
    PromotePermutes(x, i);
    NoneBroken(x, y);
    DevicesPermuted(x, y);
    assert |Devices(y)| == |multiset(Devices(y))| == |multiset(d)| == |d|;
    assert x + [] == x && y + [] == y;
    ScanFull(x, []);
    ScanFull(y, []);
    var ninth := d[FPGA_SLOT_MAX];
    assert ninth !in d[..FPGA_SLOT_MAX];
    assert ninth in Devices(y)[..FPGA_SLOT_MAX] by { assert Devices(y)[..FPGA_SLOT_MAX][0] == ninth; }
    assert ninth !in multiset(d[..FPGA_SLOT_MAX]) && ninth in multiset(Devices(y)[..FPGA_SLOT_MAX]);
  }

  /** Entries that can be read, and those that cannot. */
  function Good(x: seq<Entry>): (r: seq<Entry>)
    ensures Readable(r)
  {
    if x == [] then [] else (if x[0].Broken? then [] else [x[0]]) + Good(x[1..])
  }

  function Rest(x: seq<Entry>): seq<Entry> {
    if x == [] then [] else (if x[0].Broken? then [x[0]] else []) + Rest(x[1..])
  }

  lemma {:induction false} GoodFirst(x: seq<Entry>)
    ensures multiset(Good(x) + Rest(x)) == multiset(x) && Devices(Good(x)) == Devices(x)
    decreases |x|
  {
    hide Readable;
    if x != [] {
      GoodFirst(x[1..]);
      SplitOne(x, Good(x[1..]), Rest(x[1..]));
      if !x[0].Broken? { assert Good(x)[1..] == Good(x[1..]); }
    }
  }

  lemma SplitOne(x: seq<Entry>, good: seq<Entry>, rest: seq<Entry>)
    requires x != [] && multiset(good + rest) == multiset(x[1..])
    ensures multiset(([x[0]] + good) + rest) == multiset(x) == multiset(good + ([x[0]] + rest))
    ensures [] + good == good && [] + rest == rest
  {
    assert x == [x[0]] + x[1..];
  }

  lemma BrokenFirst(x: seq<Entry>, i: nat)
    requires i < |x| && x[i].Broken?
    ensures multiset(Promote(x, i)) == multiset(x) && MboxScan(Promote(x, i)) == Failure(x[i].code)
  {
    PromotePermutes(x, i);
  }

  /** Whatever the order of the directory, the scan gives the same. */
  ghost predicate OrderFree(x: seq<Entry>) {
    forall y: seq<Entry> :: multiset(y) == multiset(x) ==> MboxScan(y) == MboxScan(x)
  }

  lemma BrokenOrderFree(x: seq<Entry>)
    requires !Readable(x)
    ensures OrderFree(x) <==> |Devices(x)| < FPGA_SLOT_MAX && exists code :: FailWith(x, code)
  {
    hide MboxScan, Devices, Promote;
    var i :| 0 <= i < |x| && x[i].Broken?;
    BrokenFirst(x, i);
    if |Devices(x)| >= FPGA_SLOT_MAX {
      GoodFirst(x);
      ScanFull(Good(x), Rest(x));
    } else if FailWith(x, x[i].code) {
      forall y: seq<Entry> | multiset(y) == multiset(x) ensures MboxScan(y) == Failure(x[i].code) {
        ScanFails(x, y, x[i].code);
      }
      ScanFails(x, x, x[i].code);
    } else {
      var j :| 0 <= j < |x| && x[j].Broken? && x[j].code != x[i].code;
      BrokenFirst(x, j);
    }
  }

  lemma ScanFails(x: seq<Entry>, y: seq<Entry>, code: Code)
    requires multiset(y) == multiset(x) && !Readable(x) && |Devices(x)| < FPGA_SLOT_MAX && FailWith(x, code)
    ensures MboxScan(y) == Failure(code)
  {
    hide Devices;
    DevicesPermuted(x, y);
    assert |Devices(y)| == |multiset(Devices(y))| == |multiset(Devices(x))| == |Devices(x)|;
    if Readable(y) { NoneBroken(y, x); }
    forall i | 0 <= i < |y| && y[i].Broken? ensures y[i].code == code {
      assert y[i] in multiset(y);
      assert y[i] in multiset(x);
    }
    BrokenFails(y, FPGA_SLOT_MAX, code);
  }

  /** When slot numbers do not depend on directory order, for devices of distinct addresses
      and any other entries among them: exactly if there are at most eight, or, when some
      cannot be read, fewer than eight others and one code for all that fail. */
  lemma OrderFreeIff(x: seq<Entry>)
    requires Addressed(Devices(x))
    ensures Readable(x) ==> (OrderFree(x) <==> |Devices(x)| <= FPGA_SLOT_MAX)
    ensures !Readable(x) ==> (OrderFree(x) <==> |Devices(x)| < FPGA_SLOT_MAX && exists code :: FailWith(x, code))
  {
    hide MboxScan, Devices;
    if !Readable(x) {
      BrokenOrderFree(x);
    } else if |Devices(x)| <= FPGA_SLOT_MAX {
      forall y: seq<Entry> | multiset(y) == multiset(x) ensures MboxScan(y) == MboxScan(x) { Canonical(x, y); }
    } else {
      var y := NinthDevice(x);
    }
  }

  /** Nine devices in the order of their addresses. */
  function Nine(): seq<Entry> { seq(9, i requires 0 <= i < 9 => Mailbox(Spec(0, 0, 0, i + 1, 0))) }

  lemma {:induction false} DevicesAre(dir: seq<Entry>)
    requires forall i :: 0 <= i < |dir| ==> dir[i].Mailbox?
    ensures |Devices(dir)| == |dir| && forall i :: 0 <= i < |dir| ==> Devices(dir)[i] == dir[i].spec
    decreases |dir|
  {
    if dir != [] { DevicesAre(dir[1..]); }
  }

  /** Such a directory with too many devices exists. */
  lemma NineDevices()
    ensures Readable(Nine()) && |Devices(Nine())| == 9 && Addressed(Devices(Nine())) && !OrderFree(Nine())
  {
    hide OrderFree, Devices;
    DevicesAre(Nine());
    OrderFreeIff(Nine());
  }

  // ---- The two calls ------------------------------------------------------------------------------

  /** Filling in the application function: a return code, and the completed entry. */
  type Completion = Spec -> (int, Spec)

  /** Completing never touches the mailbox address. */
  ghost predicate KeepsAddress(complete: Completion) {
    forall s: Spec :: SameAddress(complete(s).1, s)
  }

  /** The caller's array after the scan: the table over its first eight entries, the others
      as the caller left them. */
  function Copied(slots: seq<Spec>, before: seq<Spec>): (entries: seq<Spec>)
    requires |slots| == FPGA_SLOT_MAX
    ensures |entries| == |before|
  {
    if |before| <= FPGA_SLOT_MAX then slots[..|before|] else slots + before[FPGA_SLOT_MAX..]
  }

  /** Completed up to entry k, which is empty, past the end, or the one that fails. */
  ghost predicate CompletedTo(k: nat, entries: seq<Spec>, complete: Completion, after: seq<Spec>, rc: int) {
    && k <= |entries| == |after|
    && (forall i :: 0 <= i < k ==> Initialized(entries[i]) && complete(entries[i]) == (0, after[i]))
    && (forall i :: k <= i < |entries| ==> after[i] == entries[i])
    && (if k == |entries| || !Initialized(entries[k]) then rc == 0 else rc == complete(entries[k]).0 != 0)
  }

  /** fpga_pci_get_all_slot_specs: complete entry after entry up to the first that is empty.
      In an array of more than eight entries it goes on to what the caller left there. */
  method GetAllSlotSpecs(dir: seq<Entry>, complete: Completion, spec: array<Spec>) returns (rc: int)
    modifies spec
    ensures MboxScan(dir).Failure? ==> rc == MboxScan(dir).code && spec[..] == old(spec[..])
    ensures MboxScan(dir).Table? ==>
              && |MboxScan(dir).slots| == FPGA_SLOT_MAX
              && exists k :: CompletedTo(k, Copied(MboxScan(dir).slots, old(spec[..])), complete, spec[..], rc)
  {
    hide MboxScan;
    var scan := MboxScan(dir);
    if scan.Failure? { return scan.code; }
    ScanLength(dir);
    ghost var entries := Copied(scan.slots, spec[..]);
    var n := if spec.Length <= FPGA_SLOT_MAX then spec.Length else FPGA_SLOT_MAX;
    forall i | 0 <= i < n { spec[i] := scan.slots[i]; }
    assert spec[..] == entries;
    rc := 0;
    var i := 0;
    while i < spec.Length
      invariant 0 <= i <= spec.Length && rc == 0
      invariant forall k :: 0 <= k < i ==> Initialized(entries[k]) && complete(entries[k]) == (0, spec[k])
      invariant forall k :: i <= k < spec.Length ==> spec[k] == entries[k]
    {
      if !Initialized(spec[i]) { break; }
      var done := complete(spec[i]);
      rc := done.0;
      if rc != 0 { break; }
      spec[i] := done.1;
      i := i + 1;
    }
    assert CompletedTo(i, entries, complete, spec[..], rc);
  }

  lemma ScanLength(dir: seq<Entry>)
    ensures MboxScan(dir).Table? ==> |MboxScan(dir).slots| == FPGA_SLOT_MAX && Sorted(MboxScan(dir).slots)
  {
    hide Sorted, Found, Sort;
    FoundFits(dir, FPGA_SLOT_MAX);
    if MboxScan(dir).Table? { SortSorted(Pad(Found(dir, FPGA_SLOT_MAX).slots)); }
  }

  /** Present entries come first, so every one of them is completed. */
  lemma PresentFirst(dir: seq<Entry>, i: nat, k: nat)
    requires MboxScan(dir).Table? && k <= i < FPGA_SLOT_MAX
    ensures |MboxScan(dir).slots| == FPGA_SLOT_MAX
    ensures Initialized(MboxScan(dir).slots[i]) ==> Initialized(MboxScan(dir).slots[k])
  {
    hide MboxScan;
    ScanLength(dir);
    var t := MboxScan(dir).slots;
    TotalPreorder(t[k], t[i], t[k]);
  }

  /** fpga_pci_get_slot_spec: the same entry, completed before it is known to be present. */
  method GetSlotSpec(dir: seq<Entry>, complete: Completion, slotId: int) returns (rc: int, spec: Spec)
    requires KeepsAddress(complete)
    ensures slotId < 0 || slotId >= FPGA_SLOT_MAX ==> rc == -EINVAL
    ensures 0 <= slotId < FPGA_SLOT_MAX ==>
              match MboxScan(dir)
              case Failure(code) => rc == code
              case Table(slots) =>
                && |slots| == FPGA_SLOT_MAX
                && var done := complete(slots[slotId]);
                   rc == (if done.0 != 0 then done.0 else if Initialized(slots[slotId]) then 0 else -ENOENT)
                   && (rc == 0 ==> spec == done.1)
  {
    hide MboxScan;
    spec := EMPTY;
    if slotId < 0 || slotId >= FPGA_SLOT_MAX { return -EINVAL, spec; }
    var scan := MboxScan(dir);
    if scan.Failure? { return scan.code, spec; }
    ScanLength(dir);
    var done := complete(scan.slots[slotId]);
    if done.0 != 0 { return done.0, spec; }
    assert SameAddress(done.1, scan.slots[slotId]);
    if !Initialized(done.1) { return -ENOENT, spec; }
    return 0, done.1;
  }

  /** Asking for one slot and asking for all agree on every device that is present. */
  method Agreement(dir: seq<Entry>, complete: Completion, all: array<Spec>, i: nat) returns (rcAll: int, rcOne: int, one: Spec)
    requires KeepsAddress(complete) && i < all.Length && i < FPGA_SLOT_MAX
    modifies all
    ensures rcAll == 0 && Initialized(all[i]) ==> rcOne == 0 && one == all[i]
    ensures rcAll == 0 && rcOne == 0 ==> one == all[i]
  {
    hide MboxScan;
    ghost var before := all[..];
    rcAll := GetAllSlotSpecs(dir, complete, all);
    rcOne, one := GetSlotSpec(dir, complete, i);
    if MboxScan(dir).Table? && rcAll == 0 {
      ghost var t := MboxScan(dir).slots;
      ghost var e := Copied(t, before);
      ghost var k: nat :| CompletedTo(k, e, complete, all[..], rcAll);
      assert SameAddress(complete(t[i]).1, t[i]);
      assert e[i] == t[i];
      if k <= i {
        assert e[k] == t[k] && all[..][i] == t[i];
        PresentFirst(dir, i, k);
      }
    }
  }
}
