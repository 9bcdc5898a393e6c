/** `update_item_display`: the text and background a task's row shows. */
module Display {
  import opened Options
  import opened Clock
  import opened ClockText
  import opened Deadlines
  import opened Tasks

  /** The keys of `COLORS` used for a row's background. */
  datatype Colour = DefaultColour | CompletedColour | OverdueColour

  datatype ItemDisplay = ItemDisplay(text: string, background: Colour)

  /** The part of the row text that names the deadline: `" (Due: HH:MM)"`. */
  function DueSuffix(deadline: Time): (r: string)
    ensures |r| == 13 && r == " (Due: " + r[7..12] + ")"
    ensures ParseClock(r[7..12]) == Some((HourOf(deadline), MinuteOf(deadline)))
  {
    var s := FormatClock(HourOf(deadline), MinuteOf(deadline));
    FormatThenParse(HourOf(deadline), MinuteOf(deadline));
    var r := " (Due: " + s + ")";
    assert r[7..12] == s;
    r
  }

  /**
   * The row of a task at clock reading `now`. Completion wins over being
   * overdue; overdue means a deadline strictly before `now`; the text is the
   * description followed by the due time when there is a deadline.
   */
  function UpdateItemDisplay(v: TaskValue, now: Time): (r: ItemDisplay)
    ensures r.background == CompletedColour <==> v.completed
    ensures r.background == OverdueColour <==> !v.completed && v.deadline.Some? && v.deadline.value < now
    ensures r.background == DefaultColour <==> !v.completed && (v.deadline.None? || now <= v.deadline.value)
    ensures |v.description| <= |r.text| && r.text[..|v.description|] == v.description
    ensures v.deadline.None? <==> r.text == v.description
  {
    var text := v.description + (if v.deadline.Some? then DueSuffix(v.deadline.value) else "");
    assert text[..|v.description|] == v.description;
    var background :=
      if v.completed then CompletedColour
      else if v.deadline.Some? && v.deadline.value < now then OverdueColour
      else DefaultColour;
    ItemDisplay(text, background)
  }

  /**
   * The due time a row shows reads back, with `strptime("%H:%M")`, as the
   * hour and minute of the deadline.
   */
  lemma ShownTimeReadsBack(v: TaskValue, now: Time)
    requires v.deadline.Some?
    ensures exists s :: UpdateItemDisplay(v, now).text == v.description + " (Due: " + s + ")"
                     && ParseClock(s) == Some((HourOf(v.deadline.value), MinuteOf(v.deadline.value)))
  {
    var suffix := DueSuffix(v.deadline.value);
    var s := suffix[7..12];
    assert UpdateItemDisplay(v, now).text == v.description + suffix;
    assert suffix == " (Due: " + s + ")";
  }

  /**
   * A task added with a two-digit `HH:MM` text shows that very text as its
   * due time, whatever day the deadline fell on.
   */
  lemma ShownTimeIsEnteredTime(description: string, text: string, added: Time, now: Time, completed: bool, notified: bool)
    requires |text| == 5 && Schedule(Some(text), added).DueAt?
    ensures var v := TaskValue(description, Some(Schedule(Some(text), added).at), completed, notified);
            UpdateItemDisplay(v, now).text == description + " (Due: " + text + ")"
  {
    ParseThenFormat(text);
  }
}
