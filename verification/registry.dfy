/**
 * The table of connected client sockets (`clnt_socks` with `clnt_cnt` live entries):
 * registration in the accept loop and removal when a client's read loop ends.
 * The mutex around both is outside this sequential model.
 */
module Registry {
  import opened Limits

  /** `clnt_socks` (always `MaxClnt` slots) and `clnt_cnt`. */
  datatype Table = Table(socks: seq<int>, count: int)

  predicate Valid(r: Table) {
    |r.socks| == MaxClnt && 0 <= r.count <= MaxClnt
  }

  /** The entries the count says are in use, in table order. */
  function Live(r: Table): seq<int>
    requires Valid(r)
  {
    r.socks[..r.count]
  }

  /** The zero-initialised globals the program starts with. */
  function Initial(): (r: Table)
    ensures Valid(r) && Live(r) == []
  {
    Table(seq(MaxClnt, _ => 0), 0)
  }

  /**
   * `clnt_socks[clnt_cnt++] = clnt_sock`. There is no bounds check in the code, so a caller
   * must keep the count below `MaxClnt`.
   */
  function Register(r: Table, h: int): (r': Table)
    requires Valid(r) && r.count < MaxClnt
    ensures Valid(r') && r'.count == r.count + 1
    ensures Live(r') == Live(r) + [h]
    ensures r'.socks[r'.count..] == r.socks[r'.count..]
  {
    Table(r.socks[r.count := h], r.count + 1)
  }

  /** Position of the first `h` in `s`, or `|s|` when there is none. */
  function FirstIndex(s: seq<int>, h: int): (k: nat)
    ensures k <= |s|
    ensures k < |s| ==> s[k] == h
    ensures forall j :: 0 <= j < k ==> s[j] != h
  {
    if |s| == 0 then 0
    else if s[0] == h then 0
    else 1 + FirstIndex(s[1..], h)
  }

  /**
   * The removal loop copies `clnt_socks[i + 1]` into `clnt_socks[i]` up to `i == clnt_cnt - 1`,
   * so whenever it copies at all it reads `clnt_socks[clnt_cnt]`: past the array for a full table.
   */
  predicate ReadsPastEnd(r: Table, h: int)
    requires Valid(r)
  {
    r.count == MaxClnt && FirstIndex(Live(r), h) < r.count - 1
  }

  /**
   * Slot by slot, what the removal loop leaves in the table: with `k` the first live match,
   * every slot strictly between `k` and the count takes its right neighbour; all others,
   * slot `k` included, keep their value.
   */
  function Spliced(r: Table, h: int): (socks: seq<int>)
    requires Valid(r) && !ReadsPastEnd(r, h)
    ensures |socks| == MaxClnt
    ensures var k := FirstIndex(Live(r), h);
      && (k < r.count ==> socks[..k + 1] == r.socks[..k + 1])
      && (k + 1 < r.count ==> socks[k + 1..r.count] == r.socks[k + 2..r.count + 1])
      && (k == r.count ==> socks == r.socks)
    ensures socks[r.count..] == r.socks[r.count..]
  {
    var k := FirstIndex(Live(r), h);
    seq(MaxClnt, j requires 0 <= j < MaxClnt => if k < j < r.count then r.socks[j + 1] else r.socks[j])
  }

  /**
   * The removal at the end of `handle_clnt`, loop for loop, post-increment included: the search
   * for `h`, the shifting `while (i++ < clnt_cnt - 1)`, and the unconditional `clnt_cnt--`.
   */
  method Remove(r: Table, h: int) returns (r': Table)
    requires Valid(r) && !ReadsPastEnd(r, h)
    ensures r'.count == r.count - 1
    ensures r'.socks == Spliced(r, h)
  {
    var a := r.socks;
    var n := r.count;
    var i := 0;
    while i < n
      invariant 0 <= i <= n
      invariant a == r.socks
      invariant forall j :: 0 <= j < i ==> a[j] != h
    {
      if h == a[i] {
        ghost var k := i;
        assert k == FirstIndex(Live(r), h);
        var more := i < n - 1;
        i := i + 1;
        while more
          invariant k + 1 <= i <= n
          invariant more == (i < n)
          invariant n == MaxClnt ==> k >= n - 1
          invariant |a| == MaxClnt
          invariant forall j :: k < j < i ==> a[j] == r.socks[j + 1]
          invariant forall j :: 0 <= j <= k || i <= j < MaxClnt ==> a[j] == r.socks[j]
          decreases n - i
        {
          a := a[i := a[i + 1]];
          more := i < n - 1;
          i := i + 1;
        }
        assert forall j :: 0 <= j < MaxClnt ==> a[j] == Spliced(r, h)[j];
        return Table(a, n - 1);
      }
      i := i + 1;
    }
    assert FirstIndex(Live(r), h) == n;
    assert forall j :: 0 <= j < MaxClnt ==> a[j] == Spliced(r, h)[j];
    r' := Table(a, n - 1);
  }

  /** `s` without its element at position `i`, the rest in order. */
  function DropAt(s: seq<int>, i: nat): (s': seq<int>)
    requires i < |s|
    ensures |s'| == |s| - 1
  {
    s[..i] + s[i + 1..]
  }

  /** The live entry the removal actually loses: the one after the match, or the last one. */
  function DroppedIndex(r: Table, h: int): nat
    requires Valid(r) && r.count > 0
  {
    var k := FirstIndex(Live(r), h);
    if k + 1 < r.count then k + 1 else r.count - 1
  }

  /**
   * The live entries after removal are the old ones with position `DroppedIndex` taken out:
   * the entry right after the match, not the match itself (unless the match is last).
   */
  lemma RemoveDropsSuccessor(r: Table, h: int)
    requires Valid(r) && !ReadsPastEnd(r, h) && r.count > 0
    ensures Spliced(r, h)[..r.count - 1] == DropAt(Live(r), DroppedIndex(r, h))
  {
    var s, d := Spliced(r, h), DroppedIndex(r, h);
    var t := DropAt(Live(r), d);
    forall j | 0 <= j < r.count - 1
      ensures s[j] == t[j]
    {
      if j < d {
        assert t[j] == Live(r)[j];
      } else {
        assert t[j] == Live(r)[j + 1];
      }
    }
  }

  /** When the match is not the last live entry, the handle being removed is still live afterwards. */
  lemma RemoveKeepsMatchedHandle(r: Table, h: int)
    requires Valid(r) && !ReadsPastEnd(r, h)
    requires FirstIndex(Live(r), h) < r.count - 1
    ensures h in Spliced(r, h)[..r.count - 1]
  {
    var k := FirstIndex(Live(r), h);
    assert Spliced(r, h)[..r.count - 1][k] == h;
  }

  /** A handle that is not live leaves the table as it was, yet the count still drops by one. */
  lemma RemoveAbsent(r: Table, h: int)
    requires Valid(r) && h !in Live(r)
    ensures !ReadsPastEnd(r, h)
    ensures Spliced(r, h) == r.socks
  {
    assert FirstIndex(Live(r), h) == r.count;
  }

  /**
   * Two clients 7 and 8 connect; when 7 disconnects the live table is `[7]`:
   * 7 survives and 8 is lost.
   */
  lemma RemoveCounterexample()
    ensures var r := Register(Register(Initial(), 7), 8);
      Live(r) == [7, 8] && !ReadsPastEnd(r, 7) && Spliced(r, 7)[..1] == [7]
  {
    var r := Register(Register(Initial(), 7), 8);
    assert Live(r) == [7, 8];
    assert FirstIndex(Live(r), 7) == 0;
  }

  /**
   * The removal the comments at lines 224 and 228 describe: the first entry equal to `h` goes,
   * later entries move left by one, and the count drops. For a handle that is not there, which
   * those comments do not address, this corrected removal changes nothing.
   */
  function Deregister(r: Table, h: int): (r': Table)
    requires Valid(r)
    ensures Valid(r')
    ensures h in Live(r) ==> r'.count == r.count - 1 && Live(r') == DropAt(Live(r), FirstIndex(Live(r), h))
    ensures h !in Live(r) ==> r' == r
    ensures multiset(Live(r')) == multiset(Live(r)) - multiset{h}
  {
    var k := FirstIndex(Live(r), h);
    if k == r.count then
      assert h !in Live(r);
      r
    else
      var socks := r.socks[..k] + r.socks[k + 1..r.count] + r.socks[r.count - 1..];
      var r' := Table(socks, r.count - 1);
      assert Live(r') == DropAt(Live(r), k);
      DropAtMultiset(Live(r), k);
      r'
  }

  lemma DropAtMultiset(s: seq<int>, i: nat)
    requires i < |s|
    ensures multiset(DropAt(s, i)) == multiset(s) - multiset{s[i]}
  {
    assert s == s[..i] + [s[i]] + s[i + 1..];
  }

  /** Corrected removal undoes registration of a handle that was not yet in the table. */
  lemma DeregisterUndoesRegister(r: Table, h: int)
    requires Valid(r) && r.count < MaxClnt && h !in Live(r)
    ensures Live(Deregister(Register(r, h), h)) == Live(r)
  {
    var r1 := Register(r, h);
    assert Live(r1)[r.count] == h;
    assert DropAt(Live(r1), r.count) == Live(r);
  }
}
