/** The two rendering helpers with logic in them: `escapeHtml` and the due-date
    classification of `formatDate`. */
module Render {
  import opened Tasks

  /** `str.replace(/c/g, entity)` for a single-character pattern. */
  function ReplaceAll(s: string, c: char, entity: string): (r: string)
    ensures forall x :: x in r ==> x in entity || (x in s && x != c)
    ensures c !in s ==> r == s
  {
    if s == [] then [] else (if s[0] == c then entity else [s[0]]) + ReplaceAll(s[1..], c, entity)
  }

  /** `escapeHtml`: four replacement passes, ampersands first. */
  function EscapeHtml(s: string): (r: string)
    ensures '<' !in r && '>' !in r && '"' !in r
  {
    ReplaceAll(ReplaceAll(ReplaceAll(ReplaceAll(s, '&', "&amp;"), '<', "&lt;"), '>', "&gt;"), '"', "&quot;")
  }

  /** The entity that stands for one character in the output. */
  function EscapeChar(c: char): string {
    if c == '&' then "&amp;"
    else if c == '<' then "&lt;"
    else if c == '>' then "&gt;"
    else if c == '"' then "&quot;"
    else [c]
  }

  /** A single left-to-right pass that replaces each character by its entity. */
  function EscapeEach(s: string): string {
    if s == [] then [] else EscapeChar(s[0]) + EscapeEach(s[1..])
  }

  lemma {:induction false} ReplaceAllConcat(a: string, b: string, c: char, entity: string)
    ensures ReplaceAll(a + b, c, entity) == ReplaceAll(a, c, entity) + ReplaceAll(b, c, entity)
  {
    if a == [] {
      assert a + b == b;
    } else {
      assert (a + b)[0] == a[0] && (a + b)[1..] == a[1..] + b;
      ReplaceAllConcat(a[1..], b, c, entity);
    }
  }

  lemma ReplaceAllOne(x: char, c: char, entity: string)
    ensures ReplaceAll([x], c, entity) == if x == c then entity else [x]
  {
    assert [x][1..] == [];
  }

  /** The four passes escape one character exactly as `EscapeChar` does: no entity that
      an earlier pass inserted is touched by a later one. */
  lemma EscapeHtmlChar(x: char)
    ensures EscapeHtml([x]) == EscapeChar(x)
  {
    ReplaceAllOne(x, '&', "&amp;");
    if x == '&' {
      EscapeLaterPasses("&amp;");
    } else {
      ReplaceAllOne(x, '<', "&lt;");
      if x == '<' {
        EscapeLaterPasses("&lt;");
      } else {
        ReplaceAllOne(x, '>', "&gt;");
        ReplaceAllOne(x, '"', "&quot;");
      }
    }
  }

  /** An entity inserted by the first two passes holds no character a later pass replaces. */
  lemma EscapeLaterPasses(e: string)
    requires e == "&amp;" || e == "&lt;"
    ensures ReplaceAll(ReplaceAll(ReplaceAll(e, '<', "&lt;"), '>', "&gt;"), '"', "&quot;") == e
  {
    assert '<' !in e && '>' !in e && '"' !in e;
  }

  /** Escaping works character by character. */
  lemma {:induction false} EscapeHtmlConcat(a: string, b: string)
    ensures EscapeHtml(a + b) == EscapeHtml(a) + EscapeHtml(b)
  {
    var a1, b1 := ReplaceAll(a, '&', "&amp;"), ReplaceAll(b, '&', "&amp;");
    var a2, b2 := ReplaceAll(a1, '<', "&lt;"), ReplaceAll(b1, '<', "&lt;");
    var a3, b3 := ReplaceAll(a2, '>', "&gt;"), ReplaceAll(b2, '>', "&gt;");
    ReplaceAllConcat(a, b, '&', "&amp;");
    ReplaceAllConcat(a1, b1, '<', "&lt;");
    ReplaceAllConcat(a2, b2, '>', "&gt;");
    ReplaceAllConcat(a3, b3, '"', "&quot;");
  }

  /** The four passes of `escapeHtml` equal one pass of `EscapeChar`. */
  lemma {:induction false} EscapeHtmlIsOnePass(s: string)
    ensures EscapeHtml(s) == EscapeEach(s)
  {
    if s != [] {
      assert s == [s[0]] + s[1..];
      EscapeHtmlConcat([s[0]], s[1..]);
      EscapeHtmlChar(s[0]);
      EscapeHtmlIsOnePass(s[1..]);
    }
  }

  /** Decodes the four entities `escapeHtml` produces, as a browser would. */
  function Unescape(s: string): string
    decreases |s|
  {
    if s == [] then []
    else if "&amp;" <= s then ['&'] + Unescape(s[5..])
    else if "&lt;" <= s then ['<'] + Unescape(s[4..])
    else if "&gt;" <= s then ['>'] + Unescape(s[4..])
    else if "&quot;" <= s then ['"'] + Unescape(s[6..])
    else [s[0]] + Unescape(s[1..])
  }

  lemma UnescapeChar(c: char, rest: string)
    ensures Unescape(EscapeChar(c) + rest) == [c] + Unescape(rest)
  {
    var e := EscapeChar(c);
    var s := e + rest;
    assert s[|e|..] == rest;
    assert s[0] == e[0];
    if c == '&' {
      assert "&amp;" <= s;
    } else if c == '<' {
      assert s[1] == 'l';
      assert "&lt;" <= s;
    } else if c == '>' {
      assert s[1] == 'g';
      assert "&gt;" <= s;
    } else if c == '"' {
      assert s[1] == 'q';
      assert "&quot;" <= s;
    }
  }

  /** Escaping loses nothing: the displayed text is exactly the task text. */
  lemma {:induction false} UnescapeEscapeHtml(s: string)
    ensures Unescape(EscapeHtml(s)) == s
  {
    EscapeHtmlIsOnePass(s);
    if s != [] {
      UnescapeChar(s[0], EscapeEach(s[1..]));
      UnescapeEscapeHtml(s[1..]);
      EscapeHtmlIsOnePass(s[1..]);
      assert s == [s[0]] + s[1..];
    }
  }

  /** The kind of label `formatDate` renders for a due date. "No due date" and an upcoming
      date share the `due-normal` style and differ only in their text. */
  datatype DueLabel = NoDueDate | Overdue(day: Day) | DueToday | Upcoming(day: Day)

  /** `formatDate`: the difference in days from today decides the label. */
  function FormatDate(due: Option<Day>, today: Day): (l: DueLabel)
    ensures due.None? <==> l == NoDueDate
    ensures l.Overdue? || l.Upcoming? ==> l.day == due.value
  {
    match due
    case None => NoDueDate
    case Some(d) =>
      var diff := d - today;
      if diff < 0 then Overdue(d)
      else if diff == 0 then DueToday
      else Upcoming(d)
  }

  /** Exactly one label applies to a due date, by its order relative to today. */
  lemma FormatDateClasses(d: Day, today: Day)
    ensures FormatDate(Some(d), today).Overdue? <==> d < today
    ensures FormatDate(Some(d), today) == DueToday <==> d == today
    ensures FormatDate(Some(d), today).Upcoming? <==> d > today
  {
  }

  /** The past-date advisory of the add form and the overdue label agree: a date the form
      warns about is shown as overdue on the same day. */
  lemma AdvisoryMatchesOverdue(text: string, date: Option<Day>, today: Day)
    requires ValidateForm(text, date, today, false).Accepted?
    ensures ValidateForm(text, date, today, false).pastDue <==> FormatDate(date, today).Overdue?
  {
  }

  /** How far along a due date is: upcoming, then today, then overdue. */
  function Urgency(l: DueLabel): nat {
    match l
    case NoDueDate => 0
    case Upcoming(_) => 0
    case DueToday => 1
    case Overdue(_) => 2
  }

  /** Because the label is recomputed from the current day on every render, a due date
      only ever moves from upcoming to today to overdue as days pass. */
  lemma UrgencyGrows(due: Option<Day>, today: Day, later: Day)
    requires today <= later
    ensures Urgency(FormatDate(due, today)) <= Urgency(FormatDate(due, later))
    ensures FormatDate(due, today) == DueToday && today < later ==> FormatDate(due, later).Overdue?
  {
  }
}
