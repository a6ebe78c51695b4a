/** The two-level query that fetches the most recent messages of a conversation, oldest first. */
module RecentMessages {
  import opened Prelude

  datatype Row = Row(id: nat, conv: nat, createdAt: int)

  function OfConversation(table: seq<Row>, conv: nat): seq<Row> {
    if table == [] then []
    else OfConversation(Init(table), conv) + if Last(table).conv == conv then [Last(table)] else []
  }

  ghost predicate Ascending(s: seq<Row>) {
    forall i, j | 0 <= i < j < |s| :: s[i].createdAt <= s[j].createdAt
  }

  ghost predicate Descending(s: seq<Row>) {
    forall i, j | 0 <= i < j < |s| :: s[i].createdAt >= s[j].createdAt
  }

  /** `full` is one of the orders ORDER BY created_at DESC allows; ties may come out either way. */
  ghost predicate OrderedDesc(rows: seq<Row>, full: seq<Row>) {
    multiset(full) == multiset(rows) && Descending(full)
  }

  /** `out` is some descending order of the rows, cut at the limit, put in ascending order. */
  ghost predicate MayAnswer(rows: seq<Row>, limit: nat, out: seq<Row>) {
    exists full | OrderedDesc(rows, full) ::
      multiset(out) == multiset(full[..Min(limit, |full|)]) && Ascending(out)
  }

  /** What the caller wants: the newest `limit` rows, oldest first. */
  ghost predicate IsRecentWindow(rows: seq<Row>, limit: nat, out: seq<Row>) {
    && Ascending(out)
    && |out| == Min(limit, |rows|)
    && multiset(out) <= multiset(rows)
    && (forall m, r | m in multiset(rows) - multiset(out) && r in out :: m.createdAt <= r.createdAt)
  }

  lemma PrefixIsNewer(inner: seq<Row>, rest: seq<Row>)
    requires Descending(inner + rest)
    ensures forall m, r | m in multiset(rest) && r in multiset(inner) :: m.createdAt <= r.createdAt
  {
    forall m: Row, r: Row | m in multiset(rest) && r in multiset(inner)
      ensures m.createdAt <= r.createdAt
    {
      assert m in rest && r in inner;
      var i :| 0 <= i < |inner| && inner[i] == r;
      var j :| 0 <= j < |rest| && rest[j] == m;
      assert (inner + rest)[i] == r && (inner + rest)[|inner| + j] == m;
    }
  }

  lemma CutIsWindow(rows: seq<Row>, limit: nat, full: seq<Row>, out: seq<Row>)
    requires OrderedDesc(rows, full)
    requires multiset(out) == multiset(full[..Min(limit, |full|)]) && Ascending(out)
    ensures IsRecentWindow(rows, limit, out)
  {
    var n := Min(limit, |full|);
    var inner, rest := full[..n], full[n..];
    assert full == inner + rest;
    PrefixIsNewer(inner, rest);
    hide Descending, Ascending;
    assert |multiset(full)| == |full| && |multiset(rows)| == |rows|;
    assert |multiset(out)| == |out| && |multiset(inner)| == n;
    assert multiset(rows) == multiset(inner) + multiset(rest);
    assert multiset(rows) - multiset(out) == multiset(rest);
    assert forall r | r in out :: r in multiset(out);
  }

  function Reverse(s: seq<Row>): (r: seq<Row>)
    ensures |r| == |s| && forall i | 0 <= i < |s| :: r[i] == s[|s| - 1 - i]
    ensures multiset(r) == multiset(s)
  {
    if s == [] then []
    else
      assert s == Init(s) + [Last(s)];
      [Last(s)] + Reverse(Init(s))
  }

  lemma {:induction false} InsertDescending(tail: seq<Row>, x: Row) returns (full: seq<Row>)
    requires Descending(tail)
    ensures Descending(full) && multiset(full) == multiset(tail) + multiset{x}
  {
    if tail == [] || tail[0].createdAt <= x.createdAt {
      full := [x] + tail;
    } else {
      var rest := InsertDescending(tail[1..], x);
      full := [tail[0]] + rest;
      assert tail == [tail[0]] + tail[1..];
      forall r | r in rest
        ensures tail[0].createdAt >= r.createdAt
      {
        assert r in multiset(rest);
        assert r == x || r in tail[1..];
      }
    }
  }

  /** Every bag of rows has a descending order. */
  lemma DescendingOrderExists(rows: seq<Row>) returns (full: seq<Row>)
    ensures OrderedDesc(rows, full)
  {
    if rows == [] {
      full := [];
    } else {
      var tail := DescendingOrderExists(Init(rows));
      full := InsertDescending(tail, Last(rows));
      assert rows == Init(rows) + [Last(rows)];
    }
  }

  lemma BagAsSeq(m: multiset<Row>) returns (s: seq<Row>)
    ensures multiset(s) == m
    decreases |m|
  {
    if m == multiset{} {
      s := [];
    } else {
      var x :| x in m;
      var rest := BagAsSeq(m - multiset{x});
      s := [x] + rest;
      assert m == multiset{x} + (m - multiset{x});
    }
  }

  lemma NewerThenOlder(out: seq<Row>, rest: seq<Row>)
    requires Ascending(out) && Descending(rest)
    requires forall m, r | m in rest && r in out :: m.createdAt <= r.createdAt
    ensures Descending(Reverse(out) + rest)
  {
  }

  lemma BagSplit(a: multiset<Row>, b: multiset<Row>)
    requires b <= a
    ensures b + (a - b) == a
  {
  }

  lemma PartsAreCut(rows: seq<Row>, limit: nat, out: seq<Row>, head: seq<Row>, rest: seq<Row>)
    requires multiset(head) == multiset(out) && |head| == |out| == Min(limit, |rows|)
    requires multiset(head) + multiset(rest) == multiset(rows)
    requires Ascending(out) && Descending(head + rest)
    ensures MayAnswer(rows, limit, out)
  {
    hide Ascending, Descending;
    var full := head + rest;
    assert multiset(full) == multiset(head) + multiset(rest);
    assert |full| == |rows| by {
      assert |multiset(full)| == |full| && |multiset(rows)| == |rows|;
    }
    assert full[..Min(limit, |full|)] == head;
    assert OrderedDesc(rows, full);
  }

  lemma WindowIsCut(rows: seq<Row>, limit: nat, out: seq<Row>)
    requires IsRecentWindow(rows, limit, out)
    ensures MayAnswer(rows, limit, out)
  {
    var older := multiset(rows) - multiset(out);
    var bag := BagAsSeq(older);
    var rest := DescendingOrderExists(bag);
    hide Ascending, Descending, MayAnswer;
    forall m, r | m in rest && r in out
      ensures m.createdAt <= r.createdAt
    {
      assert m in multiset(rest);
      assert m in older;
    }
    NewerThenOlder(out, rest);
    BagSplit(multiset(rows), multiset(out));
    PartsAreCut(rows, limit, out, Reverse(out), rest);
  }

  lemma AnswerIsWindow(rows: seq<Row>, n: nat, out: seq<Row>)
    ensures MayAnswer(rows, n, out) <==> IsRecentWindow(rows, n, out)
  {
    if MayAnswer(rows, n, out) {
      var full :| OrderedDesc(rows, full) && multiset(out) == multiset(full[..Min(n, |full|)]) && Ascending(out);
      CutIsWindow(rows, n, full, out);
    }
    if IsRecentWindow(rows, n, out) {
      WindowIsCut(rows, n, out);
    }
  }

  /** What GetMessagesForConversation may return. */
  ghost predicate QueryMayReturn(table: seq<Row>, conv: nat, limit: int, out: seq<Row>) {
    MayAnswer(OfConversation(table, conv), if limit <= 0 then 100 else limit, out)
  }

  /** The rows of one conversation, counted in the table itself. */
  function Places(table: seq<Row>, conv: nat): set<nat> {
    set i | 0 <= i < |table| && table[i].conv == conv
  }

  lemma {:induction false} SelectedCount(table: seq<Row>, conv: nat)
    ensures |OfConversation(table, conv)| == |Places(table, conv)|
  {
    if table != [] {
      var before := Init(table);
      SelectedCount(before, conv);
      var here := if Last(table).conv == conv then {|before|} else {};
      assert Places(table, conv) == Places(before, conv) + here;
    }
  }

  lemma {:induction false} SelectedCopies(table: seq<Row>, conv: nat, r: Row)
    ensures multiset(OfConversation(table, conv))[r] == if r.conv == conv then multiset(table)[r] else 0
  {
    if table != [] {
      var before, last := Init(table), Last(table);
      SelectedCopies(before, conv, r);
      assert table == before + [last];
    }
  }

  /** A bag of the conversation's rows lies in the table exactly when it lies in the selection. */
  lemma WindowOfTable(table: seq<Row>, conv: nat, out: seq<Row>)
    ensures var rows := OfConversation(table, conv);
            multiset(out) <= multiset(rows)
            <==> multiset(out) <= multiset(table) && forall r | r in out :: r.conv == conv
    ensures var rows := OfConversation(table, conv);
            forall m: Row :: m in multiset(rows) - multiset(out) <==>
              m.conv == conv && multiset(out)[m] < multiset(table)[m]
  {
    var rows := OfConversation(table, conv);
    forall r: Row
      ensures multiset(rows)[r] == if r.conv == conv then multiset(table)[r] else 0
    {
      SelectedCopies(table, conv, r);
    }
    hide OfConversation;
    if multiset(out) <= multiset(rows) {
      forall r | r in out
        ensures r.conv == conv
      {
        assert multiset(out)[r] > 0;
      }
      assert forall r: Row :: multiset(out)[r] <= multiset(rows)[r] <= multiset(table)[r];
    }
    if multiset(out) <= multiset(table) && forall r | r in out :: r.conv == conv {
      forall r: Row
        ensures multiset(out)[r] <= multiset(rows)[r]
      {
        assert multiset(out)[r] > 0 ==> r in out;
      }
    }
  }

  /**
   The recent window, exactly and in terms of the table: an answer is possible if and only if it is
   ascending, holds rows of the conversation only, each as often at most as the table does, as many
   as the limit allows (100 when none is given), and leaves out none newer than one it holds.
   */
  lemma QueryIsRecentWindow(table: seq<Row>, conv: nat, limit: int, out: seq<Row>)
    ensures QueryMayReturn(table, conv, limit, out) <==>
              && (forall i, j | 0 <= i < j < |out| :: out[i].createdAt <= out[j].createdAt)
              && (forall r | r in out :: r.conv == conv)
              && multiset(out) <= multiset(table)
              && |out| == Min(if limit <= 0 then 100 else limit, |set i | 0 <= i < |table| && table[i].conv == conv|)
              && forall m: Row, r | m.conv == conv && multiset(out)[m] < multiset(table)[m] && r in out ::
                   m.createdAt <= r.createdAt
  {
    var rows, n := OfConversation(table, conv), if limit <= 0 then 100 else limit;
    SelectedCount(table, conv);
    assert Places(table, conv) == set i | 0 <= i < |table| && table[i].conv == conv;
    AnswerIsWindow(rows, n, out);
    WindowOfTable(table, conv, out);
  }
}
