/** What a crash leaves behind (log.c). The disk is an image; a commit and a recovery are lists of
    single-block writes, and a crash cuts such a list after any prefix. `Durable` is the abstraction:
    the contents that the home blocks have once recovery is through. */
module RedoLog {
  import opened Blocks

  const LOGSIZE: nat := 30

  type Image = seq<Block>

  /** log.start and log.size: a header block followed by size - 1 data blocks. */
  datatype Area = Area(start: nat, size: nat) {
    predicate Fits(disk: nat) {
      0 < size && start + size <= disk
    }
    predicate Home(disk: nat, b: nat) {
      b < disk && !(start <= b < start + size)
    }
  }

  // ---- the header block ----

  /** The block numbers a header lists: read_head. */
  function Logged(h: Block): (bl: seq<uint32>)
    requires Word(h, 0) <= LOGSIZE
  {
    seq(Word(h, 0), i requires 0 <= i < Word(h, 0) => Word(h, 1 + i))
  }

  /** write_head stores the count and then the first |bl| entries; older entries stay behind them. */
  function Header(h: Block, bl: seq<uint32>, n: nat): (r: Block)
    requires n <= |bl| <= LOGSIZE
  {
    if n == 0 then PutWord(h, 0, |bl|) else PutWord(Header(h, bl, n - 1), n, bl[n - 1])
  }

  lemma {:induction false} HeaderWords(h: Block, bl: seq<uint32>, n: nat, i: nat)
    requires n <= |bl| <= LOGSIZE
    requires i <= n
    ensures Word(Header(h, bl, n), i) == if i == 0 then |bl| else bl[i - 1]
  {
    if n == 0 {
      WordOfPutWord(h, 0, |bl|, 0);
    } else {
      WordOfPutWord(Header(h, bl, n - 1), n, bl[n - 1], i);
      if i < n {
        HeaderWords(h, bl, n - 1, i);
      }
    }
  }

  /** Reading back a header that was written gives the same block list. */
  lemma HeaderRoundTrip(h: Block, bl: seq<uint32>)
    requires |bl| <= LOGSIZE
    ensures Word(Header(h, bl, |bl|), 0) <= LOGSIZE && Logged(Header(h, bl, |bl|)) == bl
  {
    HeaderWords(h, bl, |bl|, 0);
    forall i | 0 <= i < |bl| ensures Word(Header(h, bl, |bl|), 1 + i) == bl[i] {
      HeaderWords(h, bl, |bl|, 1 + i);
    }
  }

  // ---- images ----

  /** A transaction the log can hold: distinct home blocks, no more than the log has room for. */
  ghost predicate Loggable(a: Area, disk: nat, bl: seq<uint32>) {
    && |bl| <= LOGSIZE && |bl| < a.size
    && Distinct(bl)
    && forall i :: 0 <= i < |bl| ==> a.Home(disk, bl[i])
  }

  ghost predicate WellFormed(a: Area, img: Image) {
    && a.Fits(|img|)
    && Word(img[a.start], 0) <= LOGSIZE
    && Loggable(a, |img|, Logged(img[a.start]))
  }

  /** The header lists nothing: no committed transaction waits to be installed. */
  ghost predicate Clean(a: Area, img: Image) {
    a.Fits(|img|) && Word(img[a.start], 0) == 0
  }

  function IndexOf(s: seq<nat>, x: nat): (i: nat)
    requires x in s
    ensures i < |s| && s[i] == x
  {
    if s[0] == x then 0 else 1 + IndexOf(s[1..], x)
  }

  /** The contents of the home blocks after recovery: logged blocks come from the log. */
  ghost function DurableAt(a: Area, img: Image, b: nat): Block
    requires WellFormed(a, img) && a.Home(|img|, b)
  {
    var bl := Logged(img[a.start]);
    if b in bl then img[a.start + 1 + IndexOf(bl, b)] else img[b]
  }

  ghost function Durable(a: Area, img: Image): map<nat, Block>
    requires WellFormed(a, img)
  {
    map b: nat | 0 <= b < |img| && a.Home(|img|, b) :: DurableAt(a, img, b)
  }

  ghost function HomeBlocks(a: Area, img: Image): map<nat, Block> {
    map b: nat | 0 <= b < |img| && a.Home(|img|, b) :: img[b]
  }

  /** A transaction's effect on the home blocks. */
  ghost function Patched(m: map<nat, Block>, bl: seq<uint32>, vals: seq<Block>): map<nat, Block>
    requires |bl| == |vals|
  {
    map b | b in m :: if b in bl then vals[IndexOf(bl, b)] else m[b]
  }

  /** One write; iderw refuses a block beyond the disk. */
  function Store(img: Image, w: Write): (r: Image)
    ensures |r| == |img|
  {
    if w.blockno < |img| then img[w.blockno := w.data] else img
  }

  function Apply(img: Image, ws: seq<Write>): (r: Image)
    ensures |r| == |img|
  {
    if ws == [] then img else Store(Apply(img, ws[..|ws| - 1]), ws[|ws| - 1])
  }

  lemma ApplyNone(img: Image)
    ensures Apply(img, []) == img
  {
  }

  lemma ApplyMore(img: Image, ws: seq<Write>, w: Write)
    ensures Apply(img, ws + [w]) == Store(Apply(img, ws), w)
  {
    assert (ws + [w])[..|ws|] == ws;
  }

  // ---- the write sequences of log.c ----

  function LogWrites(a: Area, vals: seq<Block>): seq<Write> {
    seq(|vals|, i requires 0 <= i < |vals| => Write(a.start + 1 + i, vals[i]))
  }

  function InstallWrites(bl: seq<uint32>, vals: seq<Block>): seq<Write>
    requires |bl| == |vals|
  {
    seq(|bl|, i requires 0 <= i < |bl| => Write(bl[i], vals[i]))
  }

  /** commit: write_log, write_head, install_trans, write_head with an empty header. */
  ghost function CommitWrites(a: Area, h: Block, bl: seq<uint32>, vals: seq<Block>): seq<Write>
    requires |bl| == |vals| <= LOGSIZE
  {
    var committed := Header(h, bl, |bl|);
    LogWrites(a, vals) + [Write(a.start, committed)] + InstallWrites(bl, vals) + [Write(a.start, Header(committed, [], 0))]
  }

  /** recover_from_log: install what the header lists, then clear the header. */
  ghost function RecoveryWrites(a: Area, img: Image): seq<Write>
    requires WellFormed(a, img)
  {
    var bl := Logged(img[a.start]);
    InstallWrites(bl, LogContents(a, img, |bl|)) + [Write(a.start, Header(img[a.start], [], 0))]
  }

  function LogContents(a: Area, img: Image, n: nat): (vals: seq<Block>)
    requires a.start + 1 + n <= |img|
    ensures |vals| == n
  {
    img[a.start + 1..a.start + 1 + n]
  }

  // ---- crashes ----

  /** Only log data blocks have changed, the first k of them to vals. */
  ghost predicate LogWritten(a: Area, img: Image, vals: seq<Block>, k: nat, r: Image) {
    && |r| == |img| && k <= |vals|
    && forall b {:trigger r[b]} :: 0 <= b < |img| ==> r[b] == if a.start < b <= a.start + k then vals[b - a.start - 1] else img[b]
  }

  /** The image k writes into the write_log phase: only log data blocks have changed. */
  lemma {:induction false} AfterLogWrites(a: Area, img: Image, vals: seq<Block>, k: nat)
    requires a.Fits(|img|) && k <= |vals| < a.size
    ensures LogWritten(a, img, vals, k, Apply(img, LogWrites(a, vals)[..k]))
  {
    var ws := LogWrites(a, vals);
    if k > 0 {
      AfterLogWrites(a, img, vals, k - 1);
      assert ws[..k] == ws[..k - 1] + [ws[k - 1]];
      ApplyMore(img, ws[..k - 1], ws[k - 1]);
    }
  }

  /** The image k writes into install_trans: the first k logged blocks are home. */
  lemma {:induction false} AfterInstallWrites(a: Area, img: Image, bl: seq<uint32>, vals: seq<Block>, k: nat)
    requires Loggable(a, |img|, bl) && |vals| == |bl| && k <= |bl|
    ensures var r := Apply(img, InstallWrites(bl, vals)[..k]);
            forall b {:trigger r[b]} :: 0 <= b < |img| ==> r[b] == if b in bl && IndexOf(bl, b) < k then vals[IndexOf(bl, b)] else img[b]
  {
    var ws := InstallWrites(bl, vals);
    if k > 0 {
      AfterInstallWrites(a, img, bl, vals, k - 1);
      assert ws[..k] == ws[..k - 1] + [ws[k - 1]];
      ApplyMore(img, ws[..k - 1], ws[k - 1]);
      var before, r := Apply(img, ws[..k - 1]), Apply(img, ws[..k]);
      forall b | 0 <= b < |img| ensures r[b] == if b in bl && IndexOf(bl, b) < k then vals[IndexOf(bl, b)] else img[b] {
        assert r[b] == if b == bl[k - 1] then vals[k - 1] else before[b];
        assert b == bl[k - 1] ==> IndexOf(bl, b) == k - 1;
      }
    }
  }

  lemma {:induction false} ApplyConcat(img: Image, xs: seq<Write>, ys: seq<Write>)
    ensures Apply(img, xs + ys) == Apply(Apply(img, xs), ys)
  {
    if ys == [] {
      assert xs + ys == xs;
    } else {
      var front, last := ys[..|ys| - 1], ys[|ys| - 1];
      assert ys == front + [last] && xs + ys == (xs + front) + [last];
      ApplyConcat(img, xs, front);
      ApplyMore(img, xs + front, last);
      ApplyMore(Apply(img, xs), front, last);
    }
  }

  lemma ClearedHeader(h: Block)
    ensures Word(Header(h, [], 0), 0) == 0
  {
    HeaderWords(h, [], 0, 0);
  }

  /** r is img with the first k blocks of the header's list copied home. */
  ghost predicate Installed(a: Area, img: Image, k: nat, r: Image)
    requires WellFormed(a, img)
  {
    var bl := Logged(img[a.start]);
    var vals := LogContents(a, img, |bl|);
    && k <= |bl| && |r| == |img|
    && forall b {:trigger r[b]} :: 0 <= b < |img| ==> r[b] == if b in bl && IndexOf(bl, b) < k then vals[IndexOf(bl, b)] else img[b]
  }

  lemma CommittedDurable(a: Area, r: Image)
    requires WellFormed(a, r)
    ensures var bl := Logged(r[a.start]);
            Durable(a, r) == Patched(HomeBlocks(a, r), bl, LogContents(a, r, |bl|))
  {
  }

  lemma InstallKeepsLog(a: Area, img: Image, bl: seq<uint32>, k: nat, r: Image)
    requires WellFormed(a, img) && bl == Logged(img[a.start]) && Installed(a, img, k, r)
    ensures r[a.start] == img[a.start] && LogContents(a, r, |bl|) == LogContents(a, img, |bl|)
  {
    forall b | a.start <= b < a.start + a.size ensures b !in bl && r[b] == img[b] {
    }
  }

  lemma InstallKeepsPatched(a: Area, img: Image, bl: seq<uint32>, vals: seq<Block>, k: nat, r: Image)
    requires |r| == |img| && |vals| == |bl|
    requires forall b {:trigger r[b]} :: 0 <= b < |img| ==> r[b] == if b in bl && IndexOf(bl, b) < k then vals[IndexOf(bl, b)] else img[b]
    ensures Patched(HomeBlocks(a, r), bl, vals) == Patched(HomeBlocks(a, img), bl, vals)
  {
  }

  /** Installing never changes what recovery will produce, however far it got. */
  lemma InstalledKeepsDurable(a: Area, img: Image, k: nat, r: Image)
    requires WellFormed(a, img) && Installed(a, img, k, r)
    ensures WellFormed(a, r) && Durable(a, r) == Durable(a, img)
  {
    var bl := Logged(img[a.start]);
    InstallKeepsLog(a, img, bl, k, r);
    InstallKeepsPatched(a, img, bl, LogContents(a, img, |bl|), k, r);
    CommittedDurable(a, r);
    CommittedDurable(a, img);
  }

  /** Once everything is home the header can be cleared. */
  lemma ClearKeepsDurable(a: Area, img: Image, t: Image)
    requires WellFormed(a, img) && Installed(a, img, Word(img[a.start], 0), t)
    ensures var r := t[a.start := Header(img[a.start], [], 0)];
            Clean(a, r) && WellFormed(a, r) && Durable(a, r) == Durable(a, img)
  {
    var r := t[a.start := Header(img[a.start], [], 0)];
    ClearedHeader(img[a.start]);
    var bl := Logged(img[a.start]);
    assert Logged(r[a.start]) == [];
    forall b | 0 <= b < |img| && a.Home(|img|, b) ensures DurableAt(a, r, b) == DurableAt(a, img, b) {
    }
  }

  lemma InstallReaches(a: Area, img: Image, k: nat)
    requires WellFormed(a, img) && k <= Word(img[a.start], 0)
    ensures Installed(a, img, k, Apply(img, RecoveryWrites(a, img)[..k]))
  {
    var bl := Logged(img[a.start]);
    var vals := LogContents(a, img, |bl|);
    AfterInstallWrites(a, img, bl, vals, k);
    assert RecoveryWrites(a, img)[..k] == InstallWrites(bl, vals)[..k];
  }

  /** A recovery cut short after any k writes can be started again and ends the same way;
      a complete one leaves a clean log. */
  lemma RecoveryIsRestartable(a: Area, img: Image, k: nat)
    requires WellFormed(a, img) && k <= |RecoveryWrites(a, img)|
    ensures var r := Apply(img, RecoveryWrites(a, img)[..k]);
            && WellFormed(a, r) && Durable(a, r) == Durable(a, img)
            && (k == |RecoveryWrites(a, img)| ==> Clean(a, r))
  {
    var n := Word(img[a.start], 0);
    var ws := RecoveryWrites(a, img);
    if k <= n {
      InstallReaches(a, img, k);
      InstalledKeepsDurable(a, img, k, Apply(img, ws[..k]));
    } else {
      InstallReaches(a, img, n);
      ClearKeepsDurable(a, img, Apply(img, ws[..n]));
      assert ws[..k] == ws[..n] + [ws[n]];
      ApplyMore(img, ws[..n], ws[n]);
    }
  }

  /** The writes of commit up to and including the header that commits. */
  ghost function StageWrites(a: Area, h: Block, bl: seq<uint32>, vals: seq<Block>): seq<Write>
    requires |bl| == |vals| <= LOGSIZE
  {
    LogWrites(a, vals) + [Write(a.start, Header(h, bl, |bl|))]
  }

  /** What a clean disk has at home is what is durable. */
  lemma CleanDurable(a: Area, img: Image)
    requires Clean(a, img)
    ensures WellFormed(a, img) && Durable(a, img) == HomeBlocks(a, img)
  {
    assert Logged(img[a.start]) == [];
  }

  /** Before the header is written a crash loses the whole transaction. */
  lemma CrashBeforeHeader(a: Area, img: Image, bl: seq<uint32>, vals: seq<Block>, k: nat)
    requires Clean(a, img) && Loggable(a, |img|, bl) && |vals| == |bl| && k <= |bl|
    ensures var r := Apply(img, LogWrites(a, vals)[..k]);
            WellFormed(a, img) && WellFormed(a, r) && Durable(a, r) == Durable(a, img)
  {
    AfterLogWrites(a, img, vals, k);
    var r := Apply(img, LogWrites(a, vals)[..k]);
    assert r[a.start] == img[a.start];
    CleanDurable(a, img);
    CleanDurable(a, r);
    assert HomeBlocks(a, r) == HomeBlocks(a, img);
  }

  lemma StagedImage(a: Area, img: Image, vals: seq<Block>, t: Image, h: Block)
    requires a.Fits(|img|) && |vals| < a.size && LogWritten(a, img, vals, |vals|, t)
    ensures LogContents(a, t[a.start := h], |vals|) == vals
    ensures HomeBlocks(a, t[a.start := h]) == HomeBlocks(a, img)
  {
    var r := t[a.start := h];
    forall i | 0 <= i < |vals| ensures LogContents(a, r, |vals|)[i] == vals[i] {
      assert r[a.start + 1 + i] == t[a.start + 1 + i];
    }
  }

  /** The header write commits: from then on recovery installs the whole transaction. */
  lemma HeaderWriteCommits(a: Area, img: Image, bl: seq<uint32>, vals: seq<Block>)
    requires Clean(a, img) && Loggable(a, |img|, bl) && |vals| == |bl|
    ensures var r := Apply(img, StageWrites(a, img[a.start], bl, vals));
            && WellFormed(a, img) && WellFormed(a, r)
            && Logged(r[a.start]) == bl && LogContents(a, r, |bl|) == vals
            && r[a.start] == Header(img[a.start], bl, |bl|)
            && Durable(a, r) == Patched(Durable(a, img), bl, vals)
  {
    var h := Header(img[a.start], bl, |bl|);
    var ws := LogWrites(a, vals);
    AfterLogWrites(a, img, vals, |vals|);
    assert ws[..|vals|] == ws;
    ApplyMore(img, ws, Write(a.start, h));
    StagedImage(a, img, vals, Apply(img, ws), h);
    var r := Apply(img, ws)[a.start := h];
    assert Apply(img, StageWrites(a, img[a.start], bl, vals)) == r;
    HeaderRoundTrip(img[a.start], bl);
    CleanDurable(a, img);
    CommittedDurable(a, r);
  }

  /** The rest of a commit does exactly what recovery from that point would do. */
  lemma CommitIsStageThenRecovery(a: Area, img: Image, bl: seq<uint32>, vals: seq<Block>)
    requires Clean(a, img) && Loggable(a, |img|, bl) && |vals| == |bl|
    ensures var staged := Apply(img, StageWrites(a, img[a.start], bl, vals));
            && WellFormed(a, staged)
            && CommitWrites(a, img[a.start], bl, vals) == StageWrites(a, img[a.start], bl, vals) + RecoveryWrites(a, staged)
  {
    HeaderWriteCommits(a, img, bl, vals);
  }

  /** After the header a crash keeps the whole transaction. */
  lemma CrashAfterHeader(a: Area, img: Image, bl: seq<uint32>, vals: seq<Block>, k: nat)
    requires Clean(a, img) && Loggable(a, |img|, bl) && |vals| == |bl|
    requires |bl| < k <= |CommitWrites(a, img[a.start], bl, vals)|
    ensures var ws := CommitWrites(a, img[a.start], bl, vals);
            var r := Apply(img, ws[..k]);
            && WellFormed(a, img) && WellFormed(a, r)
            && Durable(a, r) == Patched(Durable(a, img), bl, vals)
            && (k == |ws| ==> Clean(a, r))
  {
    var stage := StageWrites(a, img[a.start], bl, vals);
    CommitIsStageThenRecovery(a, img, bl, vals);
    HeaderWriteCommits(a, img, bl, vals);
    var staged := Apply(img, stage);
    var rest := RecoveryWrites(a, staged);
    var j := k - |stage|;
    RecoveryIsRestartable(a, staged, j);
    assert (stage + rest)[..k] == stage + rest[..j];
    ApplyConcat(img, stage, rest[..j]);
  }

  /** CRASH ATOMICITY of one commit. Cut after any k of its writes, the disk recovers to the state before the
      transaction if the header had not been written and to the state after the whole transaction otherwise. */
  lemma CommitIsAtomic(a: Area, img: Image, bl: seq<uint32>, vals: seq<Block>, k: nat)
    requires Clean(a, img) && Loggable(a, |img|, bl) && |vals| == |bl|
    requires k <= |CommitWrites(a, img[a.start], bl, vals)|
    ensures var ws := CommitWrites(a, img[a.start], bl, vals);
            var r := Apply(img, ws[..k]);
            && WellFormed(a, img) && WellFormed(a, r)
            && Durable(a, r) == (if k <= |bl| then Durable(a, img) else Patched(Durable(a, img), bl, vals))
            && (k == |ws| ==> Clean(a, r))
  {
    if k <= |bl| {
      CrashBeforeHeader(a, img, bl, vals, k);
      assert CommitWrites(a, img[a.start], bl, vals)[..k] == LogWrites(a, vals)[..k];
    } else {
      CrashAfterHeader(a, img, bl, vals, k);
    }
  }

  // ---- whole runs ----

  /** The first k elements; all of them if there are fewer. */
  function Cut(ws: seq<Write>, k: nat): seq<Write> {
    if k <= |ws| then ws[..k] else ws
  }

  /** Boot after boot, each recovery cut short after the given number of writes. */
  ghost function Reboots(a: Area, img: Image, cuts: seq<nat>): (r: Image)
    requires WellFormed(a, img)
    ensures WellFormed(a, r) && Durable(a, r) == Durable(a, img) && |r| == |img|
    decreases |cuts|
  {
    if cuts == [] then img else
      var ws := RecoveryWrites(a, img);
      RecoveryIsRestartable(a, img, if cuts[0] <= |ws| then cuts[0] else |ws|);
      assert ws[..|ws|] == ws;
      Reboots(a, Apply(img, Cut(ws, cuts[0])), cuts[1..])
  }

  /** One turn of the system: a commit that completes, or one cut after k writes by a crash, followed by
      any number of recoveries that crash too and one that completes. */
  datatype Event =
    | Commits(bl: seq<uint32>, vals: seq<Block>)
    | Crashes(bl: seq<uint32>, vals: seq<Block>, k: nat, cuts: seq<nat>)

  ghost predicate Allowed(a: Area, disk: nat, e: Event) {
    Loggable(a, disk, e.bl) && |e.vals| == |e.bl|
  }

  /** The abstract effect: all of the transaction or nothing. */
  ghost function Effect(m: map<nat, Block>, e: Event): map<nat, Block>
    requires |e.vals| == |e.bl|
  {
    if e.Commits? || e.k > |e.bl| then Patched(m, e.bl, e.vals) else m
  }

  ghost function Step(a: Area, img: Image, e: Event): (r: Image)
    requires Clean(a, img) && Allowed(a, |img|, e)
    ensures |r| == |img| && Clean(a, r)
    ensures WellFormed(a, img) && WellFormed(a, r) && Durable(a, r) == Effect(Durable(a, img), e)
  {
    var ws := CommitWrites(a, img[a.start], e.bl, e.vals);
    CommitIsAtomic(a, img, e.bl, e.vals, |ws|);
    assert ws[..|ws|] == ws;
    match e
    case Commits(_, _) => Apply(img, ws)
    case Crashes(bl, vals, k, cuts) =>
      CommitIsAtomic(a, img, bl, vals, if k <= |ws| then k else |ws|);
      var rebooted := Reboots(a, Apply(img, Cut(ws, k)), cuts);
      var rs := RecoveryWrites(a, rebooted);
      RecoveryIsRestartable(a, rebooted, |rs|);
      assert rs[..|rs|] == rs;
      Apply(rebooted, rs)
  }

  ghost predicate AllAllowed(a: Area, disk: nat, run: seq<Event>) {
    forall i :: 0 <= i < |run| ==> Allowed(a, disk, run[i])
  }

  ghost function Run(a: Area, img: Image, run: seq<Event>): (r: Image)
    requires Clean(a, img) && AllAllowed(a, |img|, run)
    ensures |r| == |img| && Clean(a, r)
    decreases |run|
  {
    if run == [] then img else Step(a, Run(a, img, run[..|run| - 1]), run[|run| - 1])
  }

  ghost function Effects(m: map<nat, Block>, run: seq<Event>): map<nat, Block>
    requires forall i :: 0 <= i < |run| ==> |run[i].vals| == |run[i].bl|
  {
    if run == [] then m else Effect(Effects(m, run[..|run| - 1]), run[|run| - 1])
  }

  /** CRASH SAFETY of every run: the home blocks of the disk hold exactly the transactions whose header was
      written, each completely and in order, whatever crashed and however often. */
  lemma {:induction false} RunIsAtomic(a: Area, img: Image, run: seq<Event>)
    requires Clean(a, img) && AllAllowed(a, |img|, run)
    ensures HomeBlocks(a, Run(a, img, run)) == Effects(HomeBlocks(a, img), run)
  {
    if run != [] {
      var before := Run(a, img, run[..|run| - 1]);
      RunIsAtomic(a, img, run[..|run| - 1]);
      CleanDurable(a, before);
      CleanDurable(a, Run(a, img, run));
    }
  }
}
