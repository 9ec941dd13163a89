/** The two-file log in flash (mdebug_flash.c) as a queue of bytes. */
module FlashLog {
  import opened Bytes
  import opened Nor

  /** Bytes written to a file and bytes already read from it. */
  datatype FileInfo = FileInfo(size: nat, offset: nat)

  /** The partition, g_log_info and g_log_index; two files of half bytes from address base on. */
  datatype Log = Log(flash: seq<Byte>, base: nat, half: nat, info: seq<FileInfo>, index: nat) {
    function Addr(i: nat): nat {
      if i == 0 then base else base + half
    }

    /** Behind the last byte of a file everything is erased. */
    ghost predicate FileOk(i: nat) {
      i < |info| && info[i].offset <= info[i].size <= half && Addr(i) + half <= |flash| &&
      forall k :: Addr(i) + info[i].size <= k < Addr(i) + half ==> flash[k] == 0xFF
    }

    ghost predicate Valid() {
      |info| == 2 && index < 2 && half > 0 && FileOk(0) && FileOk(1)
    }

    ghost function UnreadOf(i: nat): (s: seq<Byte>)
      requires FileOk(i)
      ensures |s| == info[i].size - info[i].offset
    {
      flash[Addr(i) + info[i].offset..Addr(i) + info[i].size]
    }

    /** Written and not yet read: the rest of the older file, then the rest of the current one. */
    ghost function Unread(): seq<Byte>
      requires Valid()
    {
      UnreadOf(1 - index) + UnreadOf(index)
    }

    /** The room test looks at the data alone. */
    predicate Rotates(n: nat)
      requires |info| == 2 && index < 2
    {
      info[index].size + n > half
    }
  }

  /** The current file after d has been programmed behind its last byte. */
  function Appended(l: Log, d: seq<Byte>): (l': Log)
    requires l.index < |l.info| && l.Addr(l.index) + l.info[l.index].size + |d| <= |l.flash|
  {
    var i := l.info[l.index];
    l.(flash := Program(l.flash, l.Addr(l.index) + i.size, d, Fill(|d|, 0)),
       info := l.info[l.index := i.(size := i.size + |d|)])
  }

  /** The other file, emptied, is the current one. */
  function Rotated(l: Log): Log
    requires |l.info| == 2 && l.index < 2 && l.base + 2 * l.half <= |l.flash|
  {
    var next := (l.index + 1) % 2;
    l.(index := next, info := l.info[next := FileInfo(0, 0)], flash := Erase(l.flash, l.Addr(next), l.half))
  }

  lemma ProgramErased(d: Byte)
    ensures 0xFF & (d | 0) == d
  {
  }

  /** Over erased flash the bytes written are the bytes there, and no others change. */
  lemma AppendedBytes(l: Log, d: seq<Byte>, k: nat)
    requires l.FileOk(l.index) && l.info[l.index].size + |d| <= l.half && k < |l.flash|
    ensures var at := l.Addr(l.index) + l.info[l.index].size;
            Appended(l, d).flash[k] == if at <= k < at + |d| then d[k - at] else l.flash[k]
  {
    var at := l.Addr(l.index) + l.info[l.index].size;
    if at <= k < at + |d| {
      assert l.flash[k] == 0xFF;
      ProgramErased(d[k - at]);
    }
  }

  lemma SliceSplits(s: seq<Byte>, a: nat, b: nat, c: nat)
    requires a <= b <= c <= |s|
    ensures s[a..c] == s[a..b] + s[b..c]
  {
  }

  lemma AppendedOk(l: Log, d: seq<Byte>)
    requires l.FileOk(l.index) && l.info[l.index].size + |d| <= l.half
    ensures Appended(l, d).FileOk(l.index)
  {
    var l', at := Appended(l, d), l.Addr(l.index) + l.info[l.index].size;
    forall k | at + |d| <= k < l.Addr(l.index) + l.half ensures l'.flash[k] == 0xFF {
      AppendedBytes(l, d, k);
    }
  }

  lemma AppendedSlices(l: Log, d: seq<Byte>, from: nat, at: nat)
    requires l.FileOk(l.index) && l.info[l.index].size + |d| <= l.half
    requires from <= at == l.Addr(l.index) + l.info[l.index].size
    ensures Appended(l, d).flash[from..at + |d|] == l.flash[from..at] + d
  {
    var g := Appended(l, d).flash;
    SliceSplits(g, from, at, at + |d|);
    forall k | from <= k < at + |d| ensures g[k] == if k < at then l.flash[k] else d[k - at] {
      AppendedBytes(l, d, k);
    }
    hide Appended;
    assert g[from..at] == l.flash[from..at];
    assert g[at..at + |d|] == d;
  }

  lemma AppendedInfo(l: Log, d: seq<Byte>)
    requires l.index < |l.info| && l.Addr(l.index) + l.info[l.index].size + |d| <= |l.flash|
    ensures var l', i := Appended(l, d), l.info[l.index];
            l'.Addr(l.index) == l.Addr(l.index) && |l'.info| == |l.info| &&
            l'.info[l.index] == FileInfo(i.size + |d|, i.offset)
  {
  }

  lemma AppendedFile(l: Log, d: seq<Byte>)
    requires l.FileOk(l.index) && l.info[l.index].size + |d| <= l.half
    ensures Appended(l, d).FileOk(l.index) && Appended(l, d).UnreadOf(l.index) == l.UnreadOf(l.index) + d
  {
    hide Appended;
    AppendedOk(l, d);
    AppendedInfo(l, d);
    AppendedSlices(l, d, l.Addr(l.index) + l.info[l.index].offset, l.Addr(l.index) + l.info[l.index].size);
  }

  /** A file whose bytes and place are the same holds the same. */
  lemma SameFile(l: Log, l': Log, i: nat)
    requires l.FileOk(i) && i < |l'.info| && l'.info[i] == l.info[i] && |l'.flash| == |l.flash|
    requires l'.half == l.half && l'.Addr(i) == l.Addr(i)
    requires forall k :: l.Addr(i) <= k < l.Addr(i) + l.half ==> l'.flash[k] == l.flash[k]
    ensures l'.FileOk(i) && l'.UnreadOf(i) == l.UnreadOf(i)
  {
  }

  lemma UntouchedFile(l: Log, d: seq<Byte>)
    requires l.Valid() && l.info[l.index].size + |d| <= l.half
    ensures Appended(l, d).FileOk(1 - l.index) && Appended(l, d).UnreadOf(1 - l.index) == l.UnreadOf(1 - l.index)
  {
    forall k | l.Addr(1 - l.index) <= k < l.Addr(1 - l.index) + l.half
      ensures Appended(l, d).flash[k] == l.flash[k]
    {
      AppendedBytes(l, d, k);
    }
    SameFile(l, Appended(l, d), 1 - l.index);
  }

  lemma Associates(a: seq<Byte>, b: seq<Byte>, c: seq<Byte>)
    ensures a + (b + c) == (a + b) + c
  {
  }

  lemma BothFilesOk(l: Log)
    requires |l.info| == 2 && l.index < 2 && l.half > 0
    ensures l.Valid() <==> l.FileOk(l.index) && l.FileOk(1 - l.index)
  {
  }

  /** Appending within the current file adds d at the end of the queue. */
  lemma AppendQueues(l: Log, d: seq<Byte>)
    requires l.Valid() && l.info[l.index].size + |d| <= l.half
    ensures Appended(l, d).Valid() && Appended(l, d).Unread() == l.Unread() + d
  {
    var l' := AppendedLog(l, d);
    Associates(l.UnreadOf(1 - l.index), l.UnreadOf(l.index), d);
  }

  lemma AppendedLog(l: Log, d: seq<Byte>) returns (l': Log)
    requires l.Valid() && l.info[l.index].size + |d| <= l.half
    ensures l' == Appended(l, d) && l'.Valid() && l'.index == l.index
    ensures l'.UnreadOf(l.index) == l.UnreadOf(l.index) + d && l'.UnreadOf(1 - l.index) == l.UnreadOf(1 - l.index)
  {
    l' := Appended(l, d);
    AppendedFile(l, d);
    UntouchedFile(l, d);
    BothFilesOk(l');
  }

  lemma RotatedKeepsCurrent(l: Log)
    requires l.Valid()
    ensures Rotated(l).FileOk(l.index) && Rotated(l).UnreadOf(l.index) == l.UnreadOf(l.index)
  {
    var l', at := Rotated(l), l.Addr(l.index);
    assert l.FileOk(l.index) && l'.info[l.index] == l.info[l.index];
    forall k | at <= k < at + l.half ensures l'.flash[k] == l.flash[k] {
    }
    SameFile(l, l', l.index);
  }

  lemma RotatedEmpties(l: Log)
    requires l.Valid()
    ensures Rotated(l).FileOk(1 - l.index) && Rotated(l).UnreadOf(1 - l.index) == []
  {
  }

  lemma OlderIsEmpty(l: Log, s: seq<Byte>)
    requires l.Valid() && l.UnreadOf(1 - l.index) == s && l.UnreadOf(l.index) == []
    ensures l.Unread() == s
  {
    assert s + [] == s;
  }

  lemma RotatedLog(l: Log) returns (l': Log)
    requires l.Valid()
    ensures l' == Rotated(l) && l'.Valid() && l'.index == 1 - l.index
    ensures l'.UnreadOf(l.index) == l.UnreadOf(l.index) && l'.UnreadOf(1 - l.index) == []
  {
    hide Rotated, Log.UnreadOf;
    l' := Rotated(l);
    RotatedShape(l);
    RotatedKeepsCurrent(l);
    RotatedEmpties(l);
    BothFilesOk(l');
  }

  lemma RotatedShape(l: Log)
    requires l.Valid()
    ensures var l' := Rotated(l); l'.index == 1 - l.index && |l'.info| == 2 && l'.half == l.half
  {
  }

  /** Rotating drops exactly the unread bytes of the older file, which are the oldest there are. */
  lemma RotateDropsOldest(l: Log)
    requires l.Valid()
    ensures Rotated(l).Valid() && Rotated(l).Unread() == l.UnreadOf(l.index)
    ensures l.Unread() == l.UnreadOf(1 - l.index) + Rotated(l).Unread()
  {
    var l' := RotatedLog(l);
    OlderIsEmpty(l', l.UnreadOf(l.index));
  }

  // ---- Writes and reads ----

  /** There is room for the data and its timestamp in the file they go to; the code tests the data only. */
  predicate Fits(l: Log, data: seq<Byte>, line: seq<Byte>)
    requires |l.info| == 2 && l.index < 2
  {
    (if l.Rotates(|data|) then 0 else l.info[l.index].size) + |line| + |data| <= l.half
  }

  function MakeRoom(l: Log, n: nat): Log
    requires |l.info| == 2 && l.index < 2 && l.base + 2 * l.half <= |l.flash|
  {
    if l.Rotates(n) then Rotated(l) else l
  }

  /** The flash driver takes both parts of the write. */
  predicate Takes(l: Log, data: seq<Byte>, line: seq<Byte>)
    requires |l.info| == 2 && l.index < 2 && l.base + 2 * l.half <= |l.flash|
  {
    var m := MakeRoom(l, |data|);
    m.Addr(m.index) + m.info[m.index].size + |line| + |data| <= |l.flash|
  }

  /** What mdebug_flash_write does to the log; line is the timestamp, or empty within a line. */
  function WriteLog(l: Log, data: seq<Byte>, line: seq<Byte>): Log
    requires |l.info| == 2 && l.index < 2 && l.base + 2 * l.half <= |l.flash| && Takes(l, data, line)
  {
    Appended(Appended(MakeRoom(l, |data|), line), data)
  }

  lemma MakeRoomQueues(l: Log, n: nat)
    requires l.Valid()
    ensures MakeRoom(l, n).Valid()
    ensures MakeRoom(l, n).Unread() == if l.Rotates(n) then l.UnreadOf(l.index) else l.Unread()
  {
    RotateDropsOldest(l);
  }

  /** A write adds its bytes behind what stays, and what stays is all that was unread, or, when the files
      change places, the unread bytes of the newer file. */
  lemma WriteQueues(l: Log, data: seq<Byte>, line: seq<Byte>)
    requires l.Valid() && Fits(l, data, line)
    ensures WriteLog(l, data, line).Valid()
    ensures WriteLog(l, data, line).Unread() ==
            (if l.Rotates(|data|) then l.UnreadOf(l.index) else l.Unread()) + (line + data)
  {
    var m := MakeRoom(l, |data|);
    MakeRoomQueues(l, |data|);
    AppendQueues(m, line);
    AppendQueues(Appended(m, line), data);
    Associates(m.Unread(), line, data);
  }

  lemma SuffixIsAll(a: seq<Byte>, b: seq<Byte>, c: seq<Byte>)
    ensures b + c == (a + b) + c <==> a == []
  {
    if a == [] {
      assert a + b == b;
    } else {
      assert |b + c| < |(a + b) + c|;
    }
  }

  /** In sizes: a write drops nothing unread exactly when its data, without the timestamp, fits behind what is
      in the current file, or the older file has been read out. */
  lemma DropsNothingIff(l: Log, data: seq<Byte>, line: seq<Byte>)
    requires l.Valid() && Fits(l, data, line)
    ensures WriteLog(l, data, line).Valid()
    ensures WriteLog(l, data, line).Unread() == l.Unread() + (line + data) <==>
            l.info[l.index].size + |data| <= l.half || l.info[1 - l.index].offset == l.info[1 - l.index].size
  {
    hide WriteLog, Log.UnreadOf;
    WriteQueues(l, data, line);
    SuffixIsAll(l.UnreadOf(1 - l.index), l.UnreadOf(l.index), line + data);
    assert l.FileOk(1 - l.index);
  }

  /** What has been read, and the log that is left. */
  datatype Reading = Reading(data: seq<Byte>, log: Log)

  /** One turn of the read loop: from file i, as much as is there and as is still wanted. */
  function ReadFile(l: Log, i: nat, wanted: nat): (r: Reading)
    requires i < |l.info| && l.info[i].offset <= l.info[i].size && l.Addr(i) + l.info[i].size <= |l.flash|
  {
    var f := l.info[i];
    var n := if wanted < f.size - f.offset then wanted else f.size - f.offset;
    var at := l.Addr(i) + f.offset;
    Reading(l.flash[at..at + n], l.(info := l.info[i := f.(offset := f.offset + n)]))
  }

  lemma ReadFileKeepsFile(l: Log, i: nat, wanted: nat)
    requires i < 2 && |l.info| == 2 && l.FileOk(i)
    ensures ReadFile(l, i, wanted).log.FileOk(i)
  {
  }

  lemma FileBounds(l: Log, i: nat)
    requires l.Valid() && i < 2
    ensures |l.info| == 2 && l.info[i].offset <= l.info[i].size && l.Addr(i) + l.info[i].size <= |l.flash|
  {
    assert l.FileOk(i);
  }

  lemma ReadFileIs(l: Log, i: nat, wanted: nat, n: nat)
    requires i < |l.info| && l.info[i].offset <= l.info[i].size && l.Addr(i) + l.info[i].size <= |l.flash|
    requires n == if wanted < l.info[i].size - l.info[i].offset then wanted else l.info[i].size - l.info[i].offset
    ensures var f, at := l.info[i], l.Addr(i) + l.info[i].offset;
            ReadFile(l, i, wanted) == Reading(l.flash[at..at + n], l.(info := l.info[i := f.(offset := f.offset + n)]))
  {
  }

  lemma ReadFileShape(l: Log, i: nat, wanted: nat)
    requires i < 2 && |l.info| == 2 && l.info[i].offset <= l.info[i].size && l.Addr(i) + l.info[i].size <= |l.flash|
    ensures var r, f, at := ReadFile(l, i, wanted), l.info[i], l.Addr(i) + l.info[i].offset;
            r.data == l.flash[at..at + |r.data|] &&
            |r.data| == (if wanted < f.size - f.offset then wanted else f.size - f.offset) &&
            r.log == l.(info := r.log.info) && |r.log.info| == 2 &&
            r.log.info[i] == FileInfo(f.size, f.offset + |r.data|) && r.log.info[1 - i] == l.info[1 - i]
  {
  }

  lemma ReadFileSplits(l: Log, i: nat, wanted: nat)
    requires i < 2 && |l.info| == 2 && l.FileOk(i) && ReadFile(l, i, wanted).log.FileOk(i)
    ensures var r := ReadFile(l, i, wanted);
            l.UnreadOf(i) == r.data + r.log.UnreadOf(i) && |r.data| <= wanted &&
            (|r.data| < wanted ==> r.log.UnreadOf(i) == [])
  {
    hide ReadFile;
    var at, r := l.Addr(i), ReadFile(l, i, wanted);
    ReadFileShape(l, i, wanted);
    assert r.log.Addr(i) == at;
    SliceSplits(l.flash, at + l.info[i].offset, at + r.log.info[i].offset, at + l.info[i].size);
  }

  lemma ReadFileKeepsOther(l: Log, i: nat, j: nat, wanted: nat)
    requires i < 2 && j < 2 && i != j && |l.info| == 2 && l.FileOk(i) && l.FileOk(j)
    ensures var r := ReadFile(l, i, wanted); r.log.FileOk(j) && r.log.UnreadOf(j) == l.UnreadOf(j)
  {
    hide ReadFile;
    ReadFileShape(l, i, wanted);
    SameFile(l, ReadFile(l, i, wanted).log, j);
  }

  /** A turn returns and removes the first unread bytes of one file and leaves the other file alone. */
  lemma ReadFileTakesPrefix(l: Log, i: nat, wanted: nat)
    requires l.Valid() && i < 2
    ensures var r := ReadFile(l, i, wanted);
            r.log.Valid() && r.log.index == l.index && r.log.UnreadOf(1 - i) == l.UnreadOf(1 - i) &&
            l.UnreadOf(i) == r.data + r.log.UnreadOf(i) && |r.data| <= wanted &&
            (|r.data| < wanted ==> r.log.UnreadOf(i) == [])
  {
    assert l.FileOk(i) && l.FileOk(1 - i);
    ReadFileKeepsFile(l, i, wanted);
    ReadFileSplits(l, i, wanted);
    ReadFileKeepsOther(l, i, 1 - i, wanted);
  }

  /** The file the read loop looks at in turn i. */
  function TurnFile(l: Log, i: nat): (file: nat)
    ensures file < 2
  {
    (l.index + 1 + i) % 2
  }

  /** One turn after what has been read so far: nothing more when the buffer is full. */
  ghost function Turn(so: Reading, capacity: nat, i: nat): (r: Reading)
    requires so.log.Valid() && |so.data| <= capacity
    ensures r.log.Valid() && r.log.index == so.log.index && |r.data| <= capacity
  {
    if |so.data| == capacity then so
    else
      ReadFileTakesPrefix(so.log, TurnFile(so.log, i), capacity - |so.data|);
      var r := ReadFile(so.log, TurnFile(so.log, i), capacity - |so.data|);
      Reading(so.data + r.data, r.log)
  }

  lemma TurnReads(so: Reading, capacity: nat, i: nat, r: Reading)
    requires so.log.Valid() && |so.data| < capacity
    requires r == ReadFile(so.log, TurnFile(so.log, i), capacity - |so.data|)
    ensures Turn(so, capacity, i) == Reading(so.data + r.data, r.log)
  {
  }

  /** What i turns of the read loop have read, older file first, and the log they leave; the loop stops
      when the buffer is full. */
  ghost function Turns(l: Log, capacity: nat, i: nat): (r: Reading)
    requires l.Valid()
    ensures r.log.Valid() && r.log.index == l.index && |r.data| <= capacity
  {
    if i == 0 then Reading([], l) else Turn(Turns(l, capacity, i - 1), capacity, i - 1)
  }

  lemma NextTurns(l: Log, capacity: nat, i: nat)
    requires l.Valid()
    ensures Turns(l, capacity, i + 1) == Turn(Turns(l, capacity, i), capacity, i)
  {
  }

  /** A full buffer stays as it is. */
  lemma {:induction false} FullTurns(l: Log, capacity: nat, i: nat)
    requires l.Valid() && i <= 2 && (i == 2 || |Turns(l, capacity, i).data| == capacity)
    ensures ReadLog(l, capacity) == Turns(l, capacity, i)
    decreases 2 - i
  {
    if i == 2 {
    } else {
      NextTurns(l, capacity, i);
      FullTurns(l, capacity, i + 1);
    }
  }

  /** mdebug_flash_read with a buffer of capacity bytes. */
  ghost function ReadLog(l: Log, capacity: nat): (r: Reading)
    requires l.Valid()
  {
    Turns(l, capacity, 2)
  }

  lemma OlderTaken(l: Log, d: seq<Byte>, l': Log)
    requires l.Valid() && l'.Valid() && l'.index == l.index && l'.UnreadOf(l.index) == l.UnreadOf(l.index)
    requires l.UnreadOf(1 - l.index) == d + l'.UnreadOf(1 - l.index)
    ensures l.Unread() == d + l'.Unread()
  {
    Associates(d, l'.UnreadOf(1 - l.index), l.UnreadOf(l.index));
  }

  lemma CurrentTaken(l: Log, d: seq<Byte>, l': Log)
    requires l.Valid() && l'.Valid() && l'.index == l.index && l.UnreadOf(l.index) == d + l'.UnreadOf(l.index)
    requires l.UnreadOf(1 - l.index) == l'.UnreadOf(1 - l.index) == []
    ensures l.Unread() == d + l'.Unread() && (l'.UnreadOf(l.index) == [] ==> l'.Unread() == [])
  {
    hide Log.UnreadOf;
    assert l.Unread() == [] + l.UnreadOf(l.index) && l'.Unread() == [] + l'.UnreadOf(l.index);
  }

  /** A turn on the older file takes the first bytes of the queue. */
  lemma FirstTurn(l: Log, capacity: nat)
    requires l.Valid() && capacity > 0
    ensures var r := Turn(Reading([], l), capacity, 0);
            l.Unread() == r.data + r.log.Unread() && (|r.data| < capacity ==> r.log.UnreadOf(1 - l.index) == [])
  {
    assert TurnFile(l, 0) == 1 - l.index;
    ReadFileTakesPrefix(l, 1 - l.index, capacity);
    var r := ReadFile(l, 1 - l.index, capacity);
    TurnReads(Reading([], l), capacity, 0, r);
    assert [] + r.data == r.data;
    OlderTaken(l, r.data, r.log);
  }

  /** So does a turn on the current file once the older one has been read out. */
  lemma SecondTurn(so: Reading, capacity: nat) returns (d: seq<Byte>)
    requires so.log.Valid() && |so.data| < capacity && so.log.UnreadOf(1 - so.log.index) == []
    ensures var r := Turn(so, capacity, 1);
            r.data == so.data + d && so.log.Unread() == d + r.log.Unread() &&
              (|r.data| < capacity ==> r.log.Unread() == [])
  {
    assert TurnFile(so.log, 1) == so.log.index;
    ReadFileTakesPrefix(so.log, so.log.index, capacity - |so.data|);
    var r := ReadFile(so.log, so.log.index, capacity - |so.data|);
    TurnReads(so, capacity, 1, r);
    CurrentTaken(so.log, r.data, r.log);
    d := r.data;
  }

  lemma TurnsAreTurn(l: Log, capacity: nat)
    requires l.Valid()
    ensures ReadLog(l, capacity) == Turn(Turn(Reading([], l), capacity, 0), capacity, 1)
  {
    assert Turns(l, capacity, 1) == Turn(Turns(l, capacity, 0), capacity, 0);
  }

  /** A read returns and removes the first bytes of the queue, as many as are there and fit. */
  lemma ReadTakesPrefix(l: Log, capacity: nat)
    requires l.Valid() && capacity > 0
    ensures var r := ReadLog(l, capacity);
            l.Unread() == r.data + r.log.Unread() && |r.data| <= capacity &&
            (|r.data| < capacity ==> r.log.Unread() == [])
  {
    var first := Turn(Reading([], l), capacity, 0);
    TurnsAreTurn(l, capacity);
    FirstTurn(l, capacity);
    if |first.data| < capacity {
      var d := SecondTurn(first, capacity);
      Associates(first.data, d, ReadLog(l, capacity).log.Unread());
    }
  }

  // ---- Writes that do not fit ----

  /** The log stays well formed exactly when the write fits together with its timestamp, which the code does
      not test. */
  lemma WellFormedIffFits(l: Log, data: seq<Byte>, line: seq<Byte>)
    requires l.Valid() && l.base + 2 * l.half <= |l.flash| && Takes(l, data, line)
    ensures WriteLog(l, data, line).Valid() <==> Fits(l, data, line)
  {
    if Fits(l, data, line) {
      WriteQueues(l, data, line);
    } else {
      RotatedShape(l);
      var w := WriteLog(l, data, line);
      assert w.info[w.index].size > w.half && !w.FileOk(w.index);
    }
  }

  /** A byte written over another one that has not been erased. */
  function CutDown(f: Byte, d: Byte): Byte {
    f & d
  }

  /** Where the next byte of the current file goes. */
  predicate WritesAt(m: Log, from: nat, n: nat) {
    m.index < |m.info| && m.Addr(m.index) + m.info[m.index].size == from && from + n <= |m.flash|
  }

  lemma AppendedAt(m: Log, d: seq<Byte>, from: nat, more: nat, at: nat)
    requires WritesAt(m, from, |d| + more) && at < |m.flash|
    ensures m.index < |m.info| && m.Addr(m.index) + m.info[m.index].size + |d| <= |m.flash|
    ensures WritesAt(m, from, |d|) && WritesAt(Appended(m, d), from + |d|, more)
    ensures Appended(m, d).flash[at] ==
            if from <= at < from + |d| then CutDown(m.flash[at], d[at - from]) else m.flash[at]
    ensures |Appended(m, d).flash| == |m.flash|
  {
    if from <= at < from + |d| {
      OrNothing(d[at - from]);
    }
  }

  lemma JoinAt(a: seq<Byte>, b: seq<Byte>, i: nat)
    requires i < |a| + |b|
    ensures (a + b)[i] == if i < |a| then a[i] else b[i - |a|]
  {
  }

  /** Each byte of the current area that a timestamp and data reach is cut down to the bits written. */
  lemma BothParts(m: Log, line: seq<Byte>, data: seq<Byte>, from: nat, i: nat)
    requires WritesAt(m, from, |line| + |data|) && i < |line| + |data|
    ensures WritesAt(m, from, |line|) && WritesAt(Appended(m, line), from + |line|, |data|)
    ensures Appended(Appended(m, line), data).flash[from + i] == CutDown(m.flash[from + i], (line + data)[i])
  {
    hide Appended, CutDown;
    var w, at := Appended(m, line), from + i;
    AppendedAt(m, line, from, |data|, at);
    AppendedAt(w, data, from + |line|, 0, at);
    JoinAt(line, data, i);
    if i < |line| {
      assert Appended(w, data).flash[at] == w.flash[at];
    } else {
      assert w.flash[at] == m.flash[at] && at - (from + |line|) == i - |line|;
    }
  }

  lemma MadeRoom(l: Log, n: nat)
    requires l.Valid() && l.base + 2 * l.half <= |l.flash|
    ensures var m := MakeRoom(l, n);
            |m.info| == 2 && m.index < 2 && m.info[m.index].size <= l.half && |m.flash| == |l.flash| &&
            m.base == l.base && m.half == l.half
  {
    assert l.FileOk(l.index);
  }

  /** Otherwise a write to the first file runs on into the second one, whose bytes it cuts down. */
  lemma OverrunHitsOtherFile(l: Log, data: seq<Byte>, line: seq<Byte>, i: nat)
    requires l.Valid() && l.base + 2 * l.half <= |l.flash| && Takes(l, data, line) && MakeRoom(l, |data|).index == 0
    requires l.half + i < MakeRoom(l, |data|).info[0].size + |line| + |data|
    ensures var m, at := MakeRoom(l, |data|), l.base + l.half + i;
            m.info[0].size <= l.half && at < |m.flash| &&
            WriteLog(l, data, line).flash[at] == CutDown(m.flash[at], (line + data)[l.half + i - m.info[0].size])
  {
    hide Appended, Rotated;
    MadeRoom(l, |data|);
    var m := MakeRoom(l, |data|);
    BothParts(m, line, data, m.Addr(m.index) + m.info[m.index].size, l.half + i - m.info[0].size);
  }

  lemma OrNothing(b: Byte)
    ensures b | 0 == b
  {
  }

  // ---- The log over time ----

  ghost predicate IsSuffix(s: seq<Byte>, history: seq<Byte>) {
    |s| <= |history| && s == history[|history| - |s|..]
  }

  lemma SuffixOfSuffix(a: seq<Byte>, b: seq<Byte>, history: seq<Byte>)
    requires IsSuffix(a + b, history)
    ensures IsSuffix(b, history)
  {
    assert b == (a + b)[|a|..];
  }

  lemma SuffixGrows(s: seq<Byte>, history: seq<Byte>, more: seq<Byte>)
    requires IsSuffix(s, history)
    ensures IsSuffix(s + more, history + more)
  {
  }

  /** The bytes the read loop would copy: the rest of the older file, then the rest of the current one. */
  function Readable(l: Log): (s: seq<Byte>)
    requires |l.info| == 2 && l.index < 2
    requires forall i :: 0 <= i < 2 ==> l.info[i].offset <= l.info[i].size && l.Addr(i) + l.info[i].size <= |l.flash|
  {
    var older, current := 1 - l.index, l.index;
    l.flash[l.Addr(older) + l.info[older].offset..l.Addr(older) + l.info[older].size] +
    l.flash[l.Addr(current) + l.info[current].offset..l.Addr(current) + l.info[current].size]
  }

  lemma ReadableIsUnread(l: Log)
    requires l.Valid()
    ensures l.info[0].offset <= l.info[0].size && l.Addr(0) + l.info[0].size <= |l.flash|
    ensures l.info[1].offset <= l.info[1].size && l.Addr(1) + l.info[1].size <= |l.flash|
    ensures Readable(l) == l.Unread()
  {
    assert l.FileOk(0) && l.FileOk(1);
  }

  lemma FirstReadable(l: Log)
    requires |l.info| == 2 && l.index == 0 && l.info[1].offset == 0 < l.info[1].size
    requires forall i :: 0 <= i < 2 ==> l.info[i].offset <= l.info[i].size && l.Addr(i) + l.info[i].size <= |l.flash|
    ensures l.base + l.half < |l.flash| && Readable(l) != [] && Readable(l)[0] == l.flash[l.base + l.half]
    ensures |Readable(l)| == l.info[1].size + l.info[0].size - l.info[0].offset
  {
  }

  /** The write does not fit behind the first file, and cuts down the first unread byte of the second one. */
  predicate Damages(l: Log, data: seq<Byte>, line: seq<Byte>)
    requires |l.info| == 2 && l.index < 2 && l.base + 2 * l.half <= |l.flash|
  {
    l.index == 0 && !l.Rotates(|data|) && Takes(l, data, line) && !Fits(l, data, line) &&
    l.info[0].size <= l.half && l.half > 0 && l.info[1].offset == 0 && l.info[1].size > 0 &&
    CutDown(l.flash[l.base + l.half], (line + data)[l.half - l.info[0].size]) != l.flash[l.base + l.half]
  }

  lemma DamagedShape(l: Log, data: seq<Byte>, line: seq<Byte>)
    requires l.Valid() && l.base + 2 * l.half <= |l.flash| && Damages(l, data, line)
    ensures var w := WriteLog(l, data, line);
            w.index == 0 && |w.info| == 2 && w.base == l.base && w.half == l.half && |w.flash| == |l.flash| &&
            w.info[0] == FileInfo(l.info[0].size + |line| + |data|, l.info[0].offset) && w.info[1] == l.info[1] &&
            forall i :: 0 <= i < 2 ==> w.info[i].offset <= w.info[i].size && w.Addr(i) + w.info[i].size <= |w.flash|
    ensures l.half < l.info[0].size + |line| + |data| && MakeRoom(l, |data|) == l
  {
    assert l.FileOk(0) && l.FileOk(1);
  }

  /** Then what is read is not the newest of what has been written, although it was before. */
  lemma OverrunBreaksQueue(l: Log, data: seq<Byte>, line: seq<Byte>, history: seq<Byte>)
    requires l.Valid() && l.base + 2 * l.half <= |l.flash| && Damages(l, data, line)
    requires IsSuffix(l.Unread(), history)
    ensures var w := WriteLog(l, data, line);
            |w.info| == 2 && w.index < 2 &&
            (forall i :: 0 <= i < 2 ==>
               w.info[i].offset <= w.info[i].size && w.Addr(i) + w.info[i].size <= |w.flash|) &&
            !IsSuffix(Readable(w), history + (line + data))
  {
    hide Appended, Rotated, CutDown, WriteLog, IsSuffix, Takes, Fits, Readable;
    var w, more := WriteLog(l, data, line), line + data;
    DamagedShape(l, data, line);
    ReadableIsUnread(l);
    OverrunHitsOtherFile(l, data, line, 0);
    SuffixGrows(l.Unread(), history, more);
    FirstReadable(w);
    FirstReadable(l);
    assert (l.Unread() + more)[0] == l.Unread()[0];
    SameSuffix(Readable(w), l.Unread() + more, history + more);
  }

  /** Two files of two bytes, with one unread byte in each. */
  function SmallLog(): Log {
    Log([0x61, 0xFF, 0x7F, 0xFF], 0, 2, [FileInfo(1, 0), FileInfo(1, 0)], 0)
  }

  lemma SmallLogIsValid()
    ensures SmallLog().Valid() && SmallLog().Unread() == [0x7F, 0x61]
  {
    var l := SmallLog();
    assert l.FileOk(0) && l.FileOk(1);
    assert l.UnreadOf(1) == [0x7F] && l.UnreadOf(0) == [0x61];
  }

  lemma ZeroCuts()
    ensures CutDown(0x7F, 0x00) != 0x7F
  {
  }

  /** There are such a log and such a write: one byte of data behind one of a timestamp. */
  lemma QueueCanBreak()
    ensures SmallLog().Valid() && IsSuffix(SmallLog().Unread(), [0x7F, 0x61]) && Damages(SmallLog(), [0x00], [0x5B])
  {
    hide CutDown;
    SmallLogIsValid();
    ZeroCuts();
    assert ([0x5B] + [0x00])[1] == 0x00;
  }

  lemma SameSuffix(a: seq<Byte>, b: seq<Byte>, history: seq<Byte>)
    requires |a| == |b| && IsSuffix(b, history)
    ensures IsSuffix(a, history) <==> a == b
  {
  }

  class FlashLog {
    const half: nat
    const base: nat
    const flash: array<Byte>
    var info: seq<FileInfo>
    var index: nat
    /** flag_timestamp: the next write starts a line. */
    var stampNext: bool
    /** Every byte ever written. */
    ghost var history: seq<Byte>

    ghost function State(): Log
      reads this, flash
    {
      Log(flash[..], base, half, info, index)
    }

    /** The unread bytes are always the newest bytes of the history. */
    ghost predicate Valid()
      reads this, flash
    {
      State().Valid() && flash.Length >= base + 2 * half && IsSuffix(State().Unread(), history)
    }

    constructor (half: nat, base: nat)
      requires half > 0
      ensures Valid() && fresh(flash) && State().Unread() == [] && history == [] && stampNext
    {
      this.half, this.base := half, base;
      flash := new Byte[base + 2 * half](_ => 0xFF);
      info, index, stampNext := [FileInfo(0, 0), FileInfo(0, 0)], 0, true;
      history := [];
    }

    function Addr(i: nat): nat {
      if i == 0 then base else base + half
    }

    /** esp_partition_write. */
    method PartitionWrite(at: nat, d: seq<Byte>)
      requires at + |d| <= flash.Length
      modifies flash
      ensures flash[..] == Program(old(flash[..]), at, d, Fill(|d|, 0))
    {
      forall k | at <= k < at + |d| {
        flash[k] := flash[k] & (d[k - at] | 0);
      }
      IsProgrammed(old(flash[..]), flash[..], at, d);
    }

    /** A write behind the current file's last byte. */
    method Append(d: seq<Byte>)
      requires index < |info| && Addr(index) + info[index].size + |d| <= flash.Length
      modifies this`info, flash
      ensures State() == Appended(old(State()), d)
    {
      ghost var l := State();
      assert l.Addr(l.index) == Addr(index);
      PartitionWrite(Addr(index) + info[index].size, d);
      info := info[index := info[index].(size := info[index].size + |d|)];
    }

    method Rotate()
      requires |info| == 2 && index < 2 && flash.Length >= base + 2 * half
      modifies this`info, this`index, flash
      ensures State() == Rotated(old(State()))
    {
      index := (index + 1) % 2;
      info := info[index := FileInfo(0, 0)];
      var at := Addr(index);
      forall k | at <= k < at + half {
        flash[k] := 0xFF;
      }
      assert flash[..] == Erase(old(flash[..]), at, half);
    }

    /** The flash side of a write: make room, the timestamp when a line starts, then the data. */
    method WriteBytes(data: seq<Byte>, stamp: seq<Byte>)
      requires State().Valid() && flash.Length >= base + 2 * half
      requires Fits(State(), data, if stampNext then stamp else [])
      modifies this`info, this`index, this`stampNext, flash
      ensures State() == WriteLog(old(State()), data, if old(stampNext) then stamp else [])
    {
      if info[index].size + |data| > half {
        Rotate();
      }
      if stampNext {
        stampNext := false;
        Append(stamp);
      } else {
        AppendedNothing(State());
      }
      Append(data);
    }

    /** mdebug_flash_write; stamp is the formatted time. */
    method Write(data: seq<Byte>, stamp: seq<Byte>)
      requires Valid() && data != [] && Fits(State(), data, if stampNext then stamp else [])
      modifies this, flash
      ensures Valid()
      ensures State() == WriteLog(old(State()), data, if old(stampNext) then stamp else [])
      ensures history == old(history) + ((if old(stampNext) then stamp else []) + data)
      ensures stampNext <==> data[|data| - 1] == 0x0A
    {
      hide WriteLog, IsSuffix, Log.FileOk, Log.Unread;
      ghost var line := if stampNext then stamp else [];
      ghost var next := WriteLog(State(), data, line);
      WriteStaysSuffix(State(), data, line, history);
      WriteBytes(data, stamp);
      history := history + (line + data);
      stampNext := false;
      if data[|data| - 1] == 0x0A {
        stampNext := true;
      }
      assert State() == next;
    }

    /** esp_partition_read into the buffer from at on. */
    method PartitionRead(from: nat, n: nat, buffer: array<Byte>, at: nat)
      requires from + n <= flash.Length && buffer != flash && at + n <= buffer.Length
      modifies buffer
      ensures buffer[at..at + n] == flash[from..from + n] && buffer[..at] == old(buffer[..at])
    {
      forall k | 0 <= k < n {
        buffer[at + k] := flash[from + k];
      }
      assert buffer[at..at + n] == flash[from..from + n];
    }

    /** One turn of the read loop: up to wanted bytes of a file go to the buffer from at on. */
    method ReadTurn(file: nat, wanted: nat, buffer: array<Byte>, at: nat) returns (n: nat)
      requires State().Valid() && file < 2 && buffer != flash && at + wanted <= buffer.Length
      modifies this`info, buffer
      ensures n <= wanted && Reading(buffer[at..at + n], State()) == ReadFile(old(State()), file, wanted)
      ensures buffer[..at] == old(buffer[..at])
    {
      hide Log.Valid, Log.FileOk, ReadFile;
      ghost var l := State();
      FileBounds(l, file);
      var there := info[file].size - info[file].offset;
      n := if wanted < there then wanted else there;
      PartitionRead(Addr(file) + info[file].offset, n, buffer, at);
      info := info[file := info[file].(offset := info[file].offset + n)];
      ReadFileIs(l, file, wanted, n);
    }

    method NextTurn(i: nat, buffer: array<Byte>, size: nat) returns (more: nat)
      requires State().Valid() && buffer != flash && size < buffer.Length
      modifies this`info, buffer
      ensures more <= buffer.Length
      ensures Reading(buffer[..more], State()) == Turn(old(Reading(buffer[..size], State())), buffer.Length, i)
    {
      hide ReadFile, Turn;
      ghost var so := Reading(buffer[..size], State());
      var n := ReadTurn((index + 1 + i) % 2, buffer.Length - size, buffer, size);
      more := size + n;
      assert buffer[..more] == buffer[..size] + buffer[size..more];
      TurnReads(so, buffer.Length, i, Reading(buffer[size..more], State()));
    }

    /** The read loop: older file first, and the current one while the buffer has room. */
    method ReadBytes(buffer: array<Byte>) returns (size: nat)
      requires State().Valid() && buffer != flash && buffer.Length > 0
      modifies this`info, buffer
      ensures size <= buffer.Length && Reading(buffer[..size], State()) == ReadLog(old(State()), buffer.Length)
    {
      hide Turn;
      ghost var l := State();
      size := 0;
      var i := 0;
      ghost var so := Reading(buffer[..0], l);
      while i < 2 && buffer.Length > size
        invariant 0 <= i <= 2 && size <= buffer.Length
        invariant so == Turns(l, buffer.Length, i)
        invariant Reading(buffer[..size], State()) == so
      {
        NextTurns(l, buffer.Length, i);
        size := NextTurn(i, buffer, size);
        so := Turn(so, buffer.Length, i);
        i := i + 1;
      }
      FullTurns(l, buffer.Length, i);
    }

    /** mdebug_flash_read into a buffer of its own length. */
    method Read(buffer: array<Byte>) returns (size: nat)
      requires Valid() && buffer != flash && buffer.Length > 0
      modifies this`info, buffer
      ensures Valid() && size <= buffer.Length
      ensures Reading(buffer[..size], State()) == ReadLog(old(State()), buffer.Length)
    {
      ghost var l := State();
      ReadTakesPrefix(l, buffer.Length);
      SuffixOfSuffix(ReadLog(l, buffer.Length).data, ReadLog(l, buffer.Length).log.Unread(), history);
      size := ReadBytes(buffer);
    }

    /** mdebug_flash_size: the number of unread bytes. */
    method Size() returns (size: nat)
      requires Valid()
      ensures size == |State().Unread()|
    {
      size := 0;
      var i := 0;
      while i < 2
        invariant 0 <= i <= 2
        invariant size == (if i > 0 then |State().UnreadOf(0)| else 0) + (if i > 1 then |State().UnreadOf(1)| else 0)
      {
        if info[i].size >= info[i].offset {
          size := size + (info[i].size - info[i].offset);
        }
        i := i + 1;
      }
    }
  }

  lemma IsProgrammed(f: seq<Byte>, g: seq<Byte>, at: nat, d: seq<Byte>)
    requires |f| == |g| && at + |d| <= |f|
    requires forall k :: 0 <= k < |f| ==> g[k] == if at <= k < at + |d| then f[k] & (d[k - at] | 0) else f[k]
    ensures g == Program(f, at, d, Fill(|d|, 0))
  {
  }

  lemma AppendedNothing(l: Log)
    requires l.index < |l.info| && l.Addr(l.index) + l.info[l.index].size <= |l.flash|
    ensures Appended(l, []) == l
  {
    assert Appended(l, []).flash == l.flash;
  }

  lemma WriteStaysSuffix(l: Log, data: seq<Byte>, line: seq<Byte>, history: seq<Byte>)
    requires l.Valid() && Fits(l, data, line) && IsSuffix(l.Unread(), history)
    ensures WriteLog(l, data, line).Valid()
    ensures IsSuffix(WriteLog(l, data, line).Unread(), history + (line + data))
  {
    WriteQueues(l, data, line);
    SuffixOfSuffix(l.UnreadOf(1 - l.index), l.UnreadOf(l.index), history);
    SuffixGrows(if l.Rotates(|data|) then l.UnreadOf(l.index) else l.Unread(), history, line + data);
  }

  // ---- Runs ----

  datatype Op = Put(data: seq<Byte>, line: seq<Byte>) | Get(capacity: nat)

  /** The log after ops, everything written by then, and what each read returned, one after the other. */
  ghost predicate Runs(l: Log, ops: seq<Op>, l': Log, written: seq<Byte>, read: seq<seq<Byte>>)
    decreases |ops|
  {
    if ops == [] then l' == l && written == [] && read == []
    else
      l.Valid() &&
      match ops[0]
      case Put(data, line) =>
        Fits(l, data, line) && line + data <= written &&
        Runs(WriteLog(l, data, line), ops[1..], l', written[|line + data|..], read)
      case Get(capacity) =>
        capacity > 0 && read != [] && read[0] == ReadLog(l, capacity).data &&
        Runs(ReadLog(l, capacity).log, ops[1..], l', written, read[1..])
  }

  /** Over any run of writes that fit and reads, what is unread is a suffix of what has been written. */
  lemma {:induction false} RunIsQueue(l: Log, history: seq<Byte>, ops: seq<Op>, l': Log, written: seq<Byte>,
                                      read: seq<seq<Byte>>)
    requires l.Valid() && IsSuffix(l.Unread(), history) && Runs(l, ops, l', written, read)
    ensures l'.Valid() && IsSuffix(l'.Unread(), history + written)
    decreases |ops|
  {
    hide WriteLog, IsSuffix, Turns;
    if ops == [] {
      assert history + [] == history;
    } else if ops[0].Put? {
      var more := ops[0].line + ops[0].data;
      WriteStaysSuffix(l, ops[0].data, ops[0].line, history);
      RunIsQueue(WriteLog(l, ops[0].data, ops[0].line), history + more, ops[1..], l', written[|more|..], read);
      assert (history + more) + written[|more|..] == history + written;
    } else {
      ReadTakesPrefix(l, ops[0].capacity);
      SuffixOfSuffix(ReadLog(l, ops[0].capacity).data, ReadLog(l, ops[0].capacity).log.Unread(), history);
      RunIsQueue(ReadLog(l, ops[0].capacity).log, history, ops[1..], l', written, read[1..]);
    }
  }

  function Flatten(read: seq<seq<Byte>>): seq<Byte> {
    if read == [] then [] else read[0] + Flatten(read[1..])
  }

  /** Every time the files change places, the older one has been read out. */
  ghost predicate NothingDropped(l: Log, ops: seq<Op>)
    decreases |ops|
  {
    ops != [] ==>
      l.Valid() &&
      match ops[0]
      case Put(data, line) =>
        Fits(l, data, line) && (l.Rotates(|data|) ==> l.UnreadOf(1 - l.index) == []) &&
        NothingDropped(WriteLog(l, data, line), ops[1..])
      case Get(capacity) => NothingDropped(ReadLog(l, capacity).log, ops[1..])
  }

  lemma PutKeepsQueue(l: Log, data: seq<Byte>, line: seq<Byte>)
    requires l.Valid() && Fits(l, data, line) && (l.Rotates(|data|) ==> l.UnreadOf(1 - l.index) == [])
    ensures WriteLog(l, data, line).Valid() && WriteLog(l, data, line).Unread() == l.Unread() + (line + data)
  {
    WriteQueues(l, data, line);
    assert [] + l.UnreadOf(l.index) == l.UnreadOf(l.index);
  }

  lemma RegroupPut(u: seq<Byte>, more: seq<Byte>, w: seq<Byte>, written: seq<Byte>)
    requires more + w == written
    ensures (u + more) + w == u + written
  {
  }

  lemma RegroupGet(u: seq<Byte>, r: seq<Byte>, u1: seq<Byte>, w: seq<Byte>, f: seq<Byte>, t: seq<Byte>)
    requires u == r + u1 && u1 + w == f + t
    ensures u + w == (r + f) + t
  {
    assert u + w == r + (u1 + w);
  }

  lemma FifoPut(l: Log, ops: seq<Op>, l': Log, written: seq<Byte>, read: seq<seq<Byte>>)

    returns (rest: seq<Byte>, l1: Log)
    requires l.Valid() && ops != [] && ops[0].Put? && Runs(l, ops, l', written, read) && NothingDropped(l, ops)
    ensures l1.Valid() && Runs(l1, ops[1..], l', rest, read) && NothingDropped(l1, ops[1..])
    ensures l1.Unread() + rest == l.Unread() + written
  {
    var more := ops[0].line + ops[0].data;
    l1, rest := WriteLog(l, ops[0].data, ops[0].line), written[|more|..];
    PutKeepsQueue(l, ops[0].data, ops[0].line);
    RegroupPut(l.Unread(), more, rest, written);
  }

  /** Then the reads return everything written, in order, up to what is still unread. */
  lemma {:induction false} RunIsFifo(l: Log, ops: seq<Op>, l': Log, written: seq<Byte>, read: seq<seq<Byte>>)
    requires l.Valid() && Runs(l, ops, l', written, read) && NothingDropped(l, ops)
    ensures l'.Valid() && l.Unread() + written == Flatten(read) + l'.Unread()
    decreases |ops|
  {
    if ops == [] {
      assert l.Unread() + [] == [] + l'.Unread();
    } else if ops[0].Put? {
      var rest, l1 := FifoPut(l, ops, l', written, read);
      RunIsFifo(l1, ops[1..], l', rest, read);
    } else {
      var l1 := ReadLog(l, ops[0].capacity).log;
      ReadTakesPrefix(l, ops[0].capacity);
      RunIsFifo(l1, ops[1..], l', written, read[1..]);
      RegroupGet(l.Unread(), read[0], l1.Unread(), written, Flatten(read[1..]), l'.Unread());
    }
  }
}
