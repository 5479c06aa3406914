/**
 * The widget manager: a fixed table from trigger word to widget, and the widgets a query
 * asks for, which are those whose trigger occurs in the lower-cased query, in table order.
 */
module Widgets {
  import opened PyStr

  /** A widget's configuration. */
  datatype Widget = Widget(name: string, title: string, template: string)

  /** One row of the table: the trigger word and the widget it activates. */
  datatype Trigger = Trigger(word: string, widget: Widget)

  /** The table, in its insertion order. */
  const DefaultTriggers: seq<Trigger> := [
    Trigger("calculator", Widget("calculator", "Calculator", "widgets/calculator.html")),
    Trigger("weather", Widget("weather", "Weather", "widgets/weather.html")),
    Trigger("timer", Widget("timer", "Timer", "widgets/timer.html"))
  ]

  /** The widgets of the rows whose trigger occurs in `lowered`, in row order. */
  function Selected(triggers: seq<Trigger>, lowered: string): seq<Widget> {
    if triggers == [] then []
    else
      var last := triggers[|triggers| - 1];
      Selected(triggers[..|triggers| - 1], lowered) + (if Contains(lowered, last.word) then [last.widget] else [])
  }

  /** The widgets of a table, row by row. */
  function TableWidgets(triggers: seq<Trigger>): (ws: seq<Widget>)
    ensures |ws| == |triggers| && forall i :: 0 <= i < |triggers| ==> ws[i] == triggers[i].widget
  {
    if triggers == [] then [] else TableWidgets(triggers[..|triggers| - 1]) + [triggers[|triggers| - 1].widget]
  }

  /** `a` is `b` with some elements left out. */
  ghost predicate Subsequence<T>(a: seq<T>, b: seq<T>)
    decreases |b|
  {
    a == [] ||
    (b != [] &&
     ((a[|a| - 1] == b[|b| - 1] && Subsequence(a[..|a| - 1], b[..|b| - 1])) || Subsequence(a, b[..|b| - 1])))
  }

  ghost predicate Distinct<T>(s: seq<T>) {
    forall i, j :: 0 <= i < j < |s| ==> s[i] != s[j]
  }

  /** A widget is chosen exactly when its row's trigger occurs in the lowered query. */
  lemma {:induction false} SelectedMembers(triggers: seq<Trigger>, lowered: string, w: Widget)
    ensures w in Selected(triggers, lowered) <==> exists t :: t in triggers && t.widget == w && Contains(lowered, t.word)
  {
    if triggers != [] {
      var init := triggers[..|triggers| - 1];
      SelectedMembers(init, lowered, w);
      assert triggers == init + [triggers[|triggers| - 1]];
    }
  }

  /** The chosen widgets keep the table's order: they are the table's widgets, some left out. */
  lemma {:induction false} SelectedInTableOrder(triggers: seq<Trigger>, lowered: string)
    ensures Subsequence(Selected(triggers, lowered), TableWidgets(triggers))
  {
    if triggers != [] {
      var init := triggers[..|triggers| - 1];
      SelectedInTableOrder(init, lowered);
      var last := triggers[|triggers| - 1];
      var s := Selected(init, lowered);
      var table := TableWidgets(triggers);
      assert table[..|table| - 1] == TableWidgets(init);
      if Contains(lowered, last.word) {
        var out := s + [last.widget];
        assert out[..|out| - 1] == s && out[|out| - 1] == table[|table| - 1];
        assert Selected(triggers, lowered) == out;
      } else {
        assert Selected(triggers, lowered) == s;
      }
    }
  }

  /** A subsequence is no longer than the sequence it is taken from. */
  lemma {:induction false} SubsequenceLength<T>(a: seq<T>, b: seq<T>)
    requires Subsequence(a, b)
    ensures |a| <= |b|
    decreases |b|
  {
    if a != [] {
      if Subsequence(a, b[..|b| - 1]) {
        SubsequenceLength(a, b[..|b| - 1]);
      } else {
        SubsequenceLength(a[..|a| - 1], b[..|b| - 1]);
      }
    }
  }

  /** A subsequence keeps only elements of the sequence it is taken from. */
  lemma {:induction false} SubsequenceMembers<T>(a: seq<T>, b: seq<T>, x: T)
    requires Subsequence(a, b) && x in a
    ensures x in b
    decreases |b|
  {
    if Subsequence(a, b[..|b| - 1]) {
      SubsequenceMembers(a, b[..|b| - 1], x);
    } else if x != a[|a| - 1] {
      assert a == a[..|a| - 1] + [a[|a| - 1]];
      SubsequenceMembers(a[..|a| - 1], b[..|b| - 1], x);
    }
  }

  /** A subsequence of a sequence without repetitions has none either. */
  lemma {:induction false} SubsequenceDistinct<T>(a: seq<T>, b: seq<T>)
    requires Subsequence(a, b) && Distinct(b)
    ensures Distinct(a)
    decreases |b|
  {
    if a != [] {
      var b' := b[..|b| - 1];
      assert Distinct(b');
      if Subsequence(a, b') {
        SubsequenceDistinct(a, b');
      } else {
        var a' := a[..|a| - 1];
        SubsequenceDistinct(a', b');
        forall i | 0 <= i < |a'| ensures a'[i] != a[|a| - 1] {
          SubsequenceMembers(a', b', a'[i]);
        }
        assert forall i, j :: 0 <= i < j < |a| ==> a[i] != a[j];
      }
    }
  }

  /** The default table holds three different widgets. */
  lemma DefaultTableDistinct()
    ensures Distinct(TableWidgets(DefaultTriggers)) && |TableWidgets(DefaultTriggers)| == 3
  {
    var ws := TableWidgets(DefaultTriggers);
    assert ws[0].name[0] == 'c' && ws[1].name[0] == 'w' && ws[2].name[0] == 't';
  }

  /** A trigger written in lower case is found in the query whatever the query's case. */
  lemma LowerTriggerFound(query: string, word: string)
    requires Lower(word) == word && Contains(query, word)
    ensures Contains(Lower(query), word)
  {
    var i: nat :| i <= |query| && OccursAt(query, word, i);
    assert Lower(query)[i..i + |word|] == Lower(query[i..i + |word|]);
    assert OccursAt(Lower(query), word, i);
  }

  class WidgetManager {
    /** The trigger table; never changed. */
    const widgetTriggers: seq<Trigger> := DefaultTriggers

    /** `get_widgets_for_query(query)` */
    method GetWidgetsForQuery(query: string) returns (widgets: seq<Widget>)
      ensures widgets == Selected(widgetTriggers, Lower(query))
      ensures query == [] ==> widgets == []
    {
      if query == [] {
        assert forall t :: t in widgetTriggers ==> t.word != [];
        EmptyQuerySelectsNothing(widgetTriggers);
        return [];
      }
      var queryLower := Lower(query);
      widgets := [];
      for i := 0 to |widgetTriggers|
        invariant widgets == Selected(widgetTriggers[..i], queryLower)
      {
        var t := widgetTriggers[i];
        if Contains(queryLower, t.word) {
          widgets := widgets + [t.widget];
        }
        assert widgetTriggers[..i + 1][..i] == widgetTriggers[..i];
      }
      assert widgetTriggers[..|widgetTriggers|] == widgetTriggers;
    }
  }

  /** The early return for an empty query agrees with the loop: no non-empty trigger occurs
      in the empty string. */
  lemma {:induction false} EmptyQuerySelectsNothing(triggers: seq<Trigger>)
    ensures (forall t :: t in triggers ==> t.word != []) ==> Selected(triggers, Lower("")) == []
  {
    if triggers != [] && forall t :: t in triggers ==> t.word != [] {
      EmptyQuerySelectsNothing(triggers[..|triggers| - 1]);
      assert triggers[|triggers| - 1] in triggers;
      assert !Contains([], triggers[|triggers| - 1].word);
    }
  }

  /** With the default table: at most three widgets, none twice, in table order, each chosen
      exactly when its trigger occurs in the lower-cased query, and the query's case does not
      matter. */
  lemma DefaultSelection(query: string, w: Widget)
    ensures var out := Selected(DefaultTriggers, Lower(query));
            |out| <= 3 && Distinct(out) &&
            Subsequence(out, TableWidgets(DefaultTriggers)) &&
            (w in out <==> exists t :: t in DefaultTriggers && t.widget == w && Contains(Lower(query), t.word)) &&
            Selected(DefaultTriggers, Lower(Lower(query))) == out
  {
    var out := Selected(DefaultTriggers, Lower(query));
    SelectedInTableOrder(DefaultTriggers, Lower(query));
    SubsequenceLength(out, TableWidgets(DefaultTriggers));
    DefaultTableDistinct();
    SubsequenceDistinct(out, TableWidgets(DefaultTriggers));
    SelectedMembers(DefaultTriggers, Lower(query), w);
    LowerIdempotent(query);
  }
}
