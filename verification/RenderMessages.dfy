/** Date separators in the rendered message list. */
module RenderMessages {
  import opened Prelude
  import opened MessageList

  const MS_PER_DAY := 24 * 60 * 60 * 1000

  /** The UTC calendar day of a message, the first ten characters of its ISO time. */
  function Day(m: Message): int { m.createdAt / MS_PER_DAY }

  /** Day d is the interval of 86,400,000 ms that starts d such intervals after the epoch. */
  lemma DayExactly(m: Message, d: int)
    ensures Day(m) == d <==> 86400000 * d <= m.createdAt < 86400000 * (d + 1)
  {
  }

  datatype Node = Separator(day: int) | Bubble(m: Message)

  /** A separator is due before the last message of `list`. */
  predicate StartsDay(list: seq<Message>)
    requires list != []
  {
    Init(list) == [] || Day(Last(Init(list))) != Day(Last(list))
  }

  function Rendered(list: seq<Message>): seq<Node> {
    if list == [] then []
    else Rendered(Init(list)) + (if StartsDay(list) then [Separator(Day(Last(list)))] else []) + [Bubble(Last(list))]
  }

  method RenderMessages(list: seq<Message>) returns (nodes: seq<Node>)
    ensures nodes == Rendered(list)
  {
    nodes := [];
    var lastDate: Option<int> := None;
    var i := 0;
    while i < |list|
      invariant i <= |list|
      invariant nodes == Rendered(list[..i])
      invariant lastDate == if i == 0 then None else Some(Day(list[i - 1]))
    {
      var m := list[i];
      assert Init(list[..i + 1]) == list[..i];
      if lastDate != Some(Day(m)) {
        nodes := nodes + [Separator(Day(m))];
        lastDate := Some(Day(m));
      }
      nodes := nodes + [Bubble(m)];
      i := i + 1;
    }
    assert list[..i] == list;
  }

  /** The bubbles alone. */
  function Erase(nodes: seq<Node>): seq<Message> {
    if nodes == [] then []
    else Erase(Init(nodes)) + if Last(nodes).Bubble? then [Last(nodes).m] else []
  }

  /**
   Separators stand where they should: one opens the list, each is followed by a message of its
   day and preceded by one of another day, and neighbouring messages share their day.
   */
  ghost predicate WellSeparated(nodes: seq<Node>) {
    && (nodes != [] ==> nodes[0].Separator? && Last(nodes).Bubble?)
    && (forall i | 0 <= i < |nodes| - 1 ::
          match nodes[i]
          case Separator(d) => nodes[i + 1].Bubble? && Day(nodes[i + 1].m) == d
          case Bubble(m) =>
            match nodes[i + 1]
            case Separator(d) => d != Day(m)
            case Bubble(n) => Day(n) == Day(m))
  }

  lemma EraseSnoc(nodes: seq<Node>, n: Node)
    ensures Erase(nodes + [n]) == Erase(nodes) + if n.Bubble? then [n.m] else []
  {
  }

  lemma {:induction false} RenderedIsFaithful(list: seq<Message>)
    ensures Erase(Rendered(list)) == list
    ensures WellSeparated(Rendered(list))
    ensures list != [] ==> Last(Rendered(list)) == Bubble(Last(list))
  {
    if list != [] {
      RenderedIsFaithful(Init(list));
      var before, m := Rendered(Init(list)), Last(list);
      assert list == Init(list) + [m];
      if StartsDay(list) {
        EraseSnoc(before, Separator(Day(m)));
        EraseSnoc(before + [Separator(Day(m))], Bubble(m));
      } else {
        EraseSnoc(before, Bubble(m));
        assert before + [] == before;
      }
    }
  }

  lemma PeelLast(nodes: seq<Node>)
    requires WellSeparated(nodes) && nodes != []
    ensures |nodes| >= 2
    ensures var m := Last(nodes).m;
            if nodes[|nodes| - 2].Separator? then
              var body := nodes[..|nodes| - 2];
              nodes == body + [Separator(Day(m)), Bubble(m)] && WellSeparated(body) && Erase(nodes) == Erase(body) + [m]
              && (body != [] ==> Day(Last(body).m) != Day(m))
            else
              WellSeparated(Init(nodes)) && Erase(nodes) == Erase(Init(nodes)) + [m]
              && Day(Last(Init(nodes)).m) == Day(m)
  {
    var m, n := Last(nodes).m, |nodes|;
    if nodes[n - 2].Separator? {
      var body := nodes[..n - 2];
      assert nodes == body + [nodes[n - 2]] + [Bubble(m)];
      EraseSnoc(body, nodes[n - 2]);
      EraseSnoc(body + [nodes[n - 2]], Bubble(m));
      if body != [] {
        assert nodes[n - 3] == Last(body);
      }
    } else {
      assert nodes == Init(nodes) + [Bubble(m)];
    }
  }

  /** The two rules fix the rendering: nothing else erases to the list and is well separated. */
  lemma {:induction false} OnlyOneRendering(list: seq<Message>, nodes: seq<Node>)
    ensures Erase(nodes) == list && WellSeparated(nodes) <==> nodes == Rendered(list)
  {
    RenderedIsFaithful(list);
    if Erase(nodes) == list && WellSeparated(nodes) && nodes != [] {
      hide Day, WellSeparated;
      PeelLast(nodes);
      var m := Last(nodes).m;
      var body := if nodes[|nodes| - 2].Separator? then nodes[..|nodes| - 2] else Init(nodes);
      assert Erase(nodes) == Erase(body) + [m];
      assert Init(list) == Erase(body) && Last(list) == m;
      OnlyOneRendering(Init(list), body);
      RenderedIsFaithful(Init(list));
      hide Erase;
      if nodes[|nodes| - 2].Separator? {
        assert StartsDay(list);
        assert nodes == body + [Separator(Day(m))] + [Bubble(m)];
      } else {
        assert !StartsDay(list);
        assert nodes == body + [] + [Bubble(m)];
      }
    }
  }

  function SeparatorDays(nodes: seq<Node>): seq<int> {
    if nodes == [] then []
    else SeparatorDays(Init(nodes)) + if Last(nodes).Separator? then [Last(nodes).day] else []
  }

  lemma DaysSnoc(nodes: seq<Node>, n: Node)
    ensures SeparatorDays(nodes + [n]) == SeparatorDays(nodes) + if n.Separator? then [n.day] else []
  {
  }

  lemma DaysOfRendered(list: seq<Message>)
    requires list != []
    ensures SeparatorDays(Rendered(list))
         == SeparatorDays(Rendered(Init(list))) + if StartsDay(list) then [Day(Last(list))] else []
  {
    var before, m := Rendered(Init(list)), Last(list);
    if StartsDay(list) {
      DaysSnoc(before, Separator(Day(m)));
      DaysSnoc(before + [Separator(Day(m))], Bubble(m));
    } else {
      assert before + [] == before;
      DaysSnoc(before, Bubble(m));
    }
  }

  /** A day seen before is still the day of the message just before: no day comes back after another. */
  ghost predicate NoDayReturns(list: seq<Message>) {
    forall i, k | 0 <= i < k < |list| && Day(list[i]) == Day(list[k]) :: Day(list[k - 1]) == Day(list[k])
  }

  lemma DistinctSnoc(s: seq<int>, x: int)
    ensures Distinct(s + [x]) <==> Distinct(s) && x !in s
  {
    if x in s {
      var i :| 0 <= i < |s| && s[i] == x;
      assert (s + [x])[i] == (s + [x])[|s|];
    }
    if Distinct(s + [x]) {
      assert forall i | 0 <= i < |s| :: (s + [x])[i] == s[i];
    }
  }

  lemma NoReturnStep(list: seq<Message>)
    requires list != []
    ensures NoDayReturns(list) <==>
              NoDayReturns(Init(list))
              && (StartsDay(list) ==> forall x | x in Init(list) :: Day(x) != Day(Last(list)))
  {
  }

  /** The separated days are the days of the list. */
  lemma {:induction false} EveryDayHasSeparator(list: seq<Message>)
    ensures forall d :: d in SeparatorDays(Rendered(list)) <==> exists m | m in list :: Day(m) == d
  {
    if list != [] {
      hide Day, Rendered, SeparatorDays;
      var before, m := Init(list), Last(list);
      EveryDayHasSeparator(before);
      DaysOfRendered(list);
      assert list == before + [m];
      assert before != [] ==> Last(before) in before;
      var days := SeparatorDays(Rendered(before));
      forall d
        ensures d in SeparatorDays(Rendered(list)) <==> exists x | x in list :: Day(x) == d
      {
        assert d in SeparatorDays(Rendered(list)) <==> d in days || (StartsDay(list) && d == Day(m));
        if exists x | x in list :: Day(x) == d {
          var x :| x in list && Day(x) == d;
          assert x in before || x == m;
        }
        if exists x | x in before :: Day(x) == d {
          var x :| x in before && Day(x) == d;
          assert x in list;
        }
        assert m in list;
      }
    }
  }

  /** Each day of the list has a separator; none has two exactly when no day comes back. */
  lemma {:induction false} OneSeparatorPerDayExactly(list: seq<Message>)
    ensures Distinct(SeparatorDays(Rendered(list))) <==> NoDayReturns(list)
  {
    if list != [] {
      hide Day, Rendered, SeparatorDays, NoDayReturns, Distinct;
      var before, m := Init(list), Last(list);
      var days := SeparatorDays(Rendered(before));
      OneSeparatorPerDayExactly(before);
      EveryDayHasSeparator(before);
      DaysOfRendered(list);
      NoReturnStep(list);
      if StartsDay(list) {
        DistinctSnoc(days, Day(m));
      } else {
        assert days + [] == days;
      }
    }
  }

  /** On a list sorted by time every day has exactly one separator. */
  lemma {:induction false} SortedListHasOneSeparatorPerDay(list: seq<Message>)
    requires forall i, j | 0 <= i < j < |list| :: list[i].createdAt <= list[j].createdAt
    ensures Distinct(SeparatorDays(Rendered(list)))
  {
    assert forall i, j | 0 <= i < j < |list| :: Day(list[i]) <= Day(list[j]);
    hide Day, Rendered;
    OneSeparatorPerDayExactly(list);
  }

  /** Messages of one day, the next and the first again: that day gets two separators. */
  lemma ReturningDayIsSeparatedTwice(a: Message, b: Message, c: Message)
    requires Day(a) == Day(c) != Day(b)
    ensures !Distinct(SeparatorDays(Rendered([a, b, c])))
  {
    hide Day, Rendered, SeparatorDays;
    assert !NoDayReturns([a, b, c]) by {
      assert [a, b, c][0] == a && [a, b, c][1] == b && [a, b, c][2] == c;
    }
    OneSeparatorPerDayExactly([a, b, c]);
  }
}
