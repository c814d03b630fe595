/** The two-level bitmap that scheduler.c uses with more than 32 priorities. */
module TwoLevelBitmap {
  import opened SchedSpec

  /** rt_thread_ready_priority_group over rt_thread_ready_table: 32 bytes of 8 bits. */
  datatype Table = Table(group: seq<bool>, table: seq<seq<bool>>)

  const ROWS: nat := 32

  predicate Shaped(t: Table) {
    |t.group| == ROWS && |t.table| == ROWS && forall n :: 0 <= n < ROWS ==> |t.table[n]| == 8
  }

  /** `has` says which ready lists are not empty, as one long bitmap. */
  predicate Agrees(t: Table, has: seq<bool>) {
    && Shaped(t) && |has| == 8 * ROWS
    && (forall n :: 0 <= n < ROWS ==> t.table[n] == has[8 * n..8 * n + 8])
    && (forall n :: 0 <= n < ROWS ==> (t.group[n] <==> Ffs(t.table[n]) != 0))
  }

  /** rt_schedule_insert_thread: thread->number is prio >> 3, thread->high_mask is bit prio & 7. */
  function Mark(t: Table, prio: nat): Table
    requires Shaped(t) && prio < 8 * ROWS
  {
    var n := prio / 8;
    Table(t.group[n := true], t.table[n := t.table[n][prio % 8 := true]])
  }

  /** rt_schedule_remove_thread, when the list has become empty. */
  function Unmark(t: Table, prio: nat): Table
    requires Shaped(t) && prio < 8 * ROWS
  {
    var n := prio / 8;
    var row := t.table[n][prio % 8 := false];
    Table(if Ffs(row) == 0 then t.group[n := false] else t.group, t.table[n := row])
  }

  /** The lookup of _get_highest_priority_thread. */
  function Lookup(t: Table): int
    requires Shaped(t) && Ffs(t.group) != 0
  {
    var number := Ffs(t.group) - 1;
    8 * number + Ffs(t.table[number]) - 1
  }

  /** Looking up the row and then the bit finds what a search of one long bitmap finds. */
  lemma LookupIsFirst(t: Table, has: seq<bool>)
    requires Agrees(t, has)
    ensures Ffs(t.group) == 0 <==> Ffs(has) == 0
    ensures Ffs(t.group) != 0 ==> Lookup(t) == Ffs(has) - 1
  {
    if Ffs(has) != 0 {
      var p := Ffs(has) - 1;
      var n := p / 8;
      RowIs(t, has, n, p % 8, p);
      RowClear(t, has, n, p % 8);
      forall m | 0 <= m < n ensures !t.group[m] {
        RowClear(t, has, m, 8);
      }
      hide Agrees;
      assert t.group[n] && Ffs(t.group) - 1 == n;
      assert Ffs(t.table[n]) - 1 == p % 8;
    } else {
      forall n | 0 <= n < ROWS ensures !t.group[n] {
        RowClear(t, has, n, 8);
      }
    }
  }

  lemma RowIs(t: Table, has: seq<bool>, n: nat, b: nat, p: nat)
    requires Agrees(t, has) && n < ROWS && b < 8 && p == 8 * n + b && has[p]
    ensures t.group[n] && t.table[n][b]
  {
    assert t.table[n][b] == has[8 * n..8 * n + 8][b];
  }

  lemma RowClear(t: Table, has: seq<bool>, n: nat, k: nat)
    requires Agrees(t, has) && n < ROWS && k <= 8
    requires forall q :: 8 * n <= q < 8 * n + k ==> !has[q]
    ensures forall b :: 0 <= b < k ==> !t.table[n][b]
    ensures k == 8 ==> !t.group[n]
  {
    var row := t.table[n];
    forall b | 0 <= b < k ensures !row[b] {
      assert row[b] == has[8 * n..8 * n + 8][b];
    }
  }

  lemma MarkAgrees(t: Table, has: seq<bool>, prio: nat)
    requires Agrees(t, has) && prio < |has|
    ensures Agrees(Mark(t, prio), has[prio := true])
  {
    RowAgrees(t, has, prio, true);
    hide Ffs;
  }

  lemma UnmarkAgrees(t: Table, has: seq<bool>, prio: nat)
    requires Agrees(t, has) && prio < |has|
    ensures Agrees(Unmark(t, prio), has[prio := false])
  {
    RowAgrees(t, has, prio, false);
    FewerBits(t.table[prio / 8], prio % 8);
    hide Ffs;
  }

  lemma FewerBits(row: seq<bool>, b: nat)
    requires b < |row|
    ensures Ffs(row[b := false]) != 0 ==> Ffs(row) != 0
  {
    var r := row[b := false];
    if Ffs(r) != 0 { assert row[Ffs(r) - 1]; }
  }

  lemma RowAgrees(t: Table, has: seq<bool>, prio: nat, bit: bool)
    requires Agrees(t, has) && prio < |has|
    ensures forall n :: 0 <= n < ROWS ==>
              t.table[prio / 8 := t.table[prio / 8][prio % 8 := bit]][n] == has[prio := bit][8 * n..8 * n + 8]
    ensures bit ==> Ffs(t.table[prio / 8][prio % 8 := bit]) != 0
  {
    hide Ffs;
    var table := t.table[prio / 8 := t.table[prio / 8][prio % 8 := bit]];
    forall n | 0 <= n < ROWS ensures table[n] == has[prio := bit][8 * n..8 * n + 8] {
      assert t.table[n] == has[8 * n..8 * n + 8];
    }
    var row := t.table[prio / 8][prio % 8 := bit];
    assert row[prio % 8] == bit;
  }
}
