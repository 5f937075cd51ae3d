/** `SMSHandler.format_appointment_message`: the text of an appointment reminder SMS. */
module SmsHandler {
  import opened Wrappers
  import opened Timestamps
  import opened Strftime

  /** The fixed text that opens the reminder sentence. */
  const Intro := "This is a reminder for your appointment on "

  /** The fixed signature that closes every reminder. */
  const Signature := "\n\nBest regards,\nArtistic Family Dentistry"

  /** The opening line: `Hello `, the patient's name, a comma, then an empty line. */
  function Greeting(patientName: string): string
  {
    "Hello " + patientName + ",\n\n"
  }

  /** The reminder sentence: the fixed opening words, the formatted time, a full stop. */
  function ReminderSentence(formattedTime: string): string
  {
    Intro + formattedTime + "."
  }

  /** The details line: after an empty line, `Details: ` and the message. */
  function DetailsLine(message: string): string
  {
    "\n\nDetails: " + message
  }

  /** Each piece of the message holds what it is given verbatim, at a fixed place between
      fixed texts. */
  lemma MessagePieces(patientName: string, formattedTime: string, message: string)
    ensures var g := Greeting(patientName);
      && |g| == |patientName| + 9
      && g[..6] == "Hello " && g[6..|g| - 3] == patientName && g[|g| - 3..] == ",\n\n"
    ensures var r := ReminderSentence(formattedTime);
      && |r| == |Intro| + |formattedTime| + 1
      && r[..|Intro|] == Intro && r[|Intro|..|r| - 1] == formattedTime && r[|r| - 1] == '.'
    ensures var d := DetailsLine(message);
      && |d| == |message| + 11
      && d[..11] == "\n\nDetails: " && d[11..] == message
  {
    var g := Greeting(patientName);
    assert g[6..|g| - 3] == patientName;
    var r := ReminderSentence(formattedTime);
    assert r[|Intro|..|r| - 1] == formattedTime;
  }

  predicate StartsWith(s: string, prefix: string)
  {
    |prefix| <= |s| && s[..|prefix|] == prefix
  }

  predicate EndsWith(s: string, suffix: string)
  {
    |suffix| <= |s| && s[|s| - |suffix|..] == suffix
  }

  /** The reminder text around an already formatted appointment time: the greeting, the
      reminder sentence, the details line and the signature, with nothing between them. */
  function Compose(patientName: string, formattedTime: string, message: string): (text: string)
    ensures StartsWith(text, Greeting(patientName))
    ensures StartsWith(text[|Greeting(patientName)|..], ReminderSentence(formattedTime))
    ensures EndsWith(text, DetailsLine(message) + Signature)
    ensures |text| == |Greeting(patientName)| + |ReminderSentence(formattedTime)| + |DetailsLine(message) + Signature|
  {
    var g := Greeting(patientName);
    var sentence := ReminderSentence(formattedTime);
    var tail := DetailsLine(message) + Signature;
    var text := g + sentence + tail;
    assert text[..|g|] == g;
    assert text[|g|..][..|sentence|] == sentence;
    assert text[|text| - |tail|..] == tail;
    text
  }

  /** Replaces every `Z` of `appointmentTime` by `+00:00`, parses the result with
      `fromIsoFormat` (which raises, here `None`, on malformed text), renders the parsed
      wall-clock time as `%B %d, %Y at %I:%M %p` and composes the reminder around it. */
  function FormatAppointmentMessage(patientName: string, appointmentTime: string, message: string,
                                    fromIsoFormat: Parser): (r: Option<string>)
    ensures r.Some? <==> fromIsoFormat(ReplaceZulu(appointmentTime)).Some?
    ensures r.Some? ==>
      r.value == Compose(patientName, FormatAppointmentTime(fromIsoFormat(ReplaceZulu(appointmentTime)).value), message)
  {
    match fromIsoFormat(ReplaceZulu(appointmentTime))
    case None => None
    case Some(dt) => Some(Compose(patientName, FormatAppointmentTime(dt), message))
  }

  /** Cutting a text made of a head, an opening, a middle, a closing and a tail at the
      two ends of the middle gives the middle back. */
  lemma CutMiddle(head: string, opening: string, middle: string, closing: string, tail: string)
    ensures
      var text := head + (opening + middle + closing) + tail;
      |head| + |opening| <= |text| - |closing + tail|
      && text[|head| + |opening|..|text| - |closing + tail|] == middle
  {
    var text := head + (opening + middle + closing) + tail;
    assert text == (head + opening) + middle + (closing + tail);
  }

  /** The formatted time sits between the reminder's fixed opening text and the full
      stop that ends the reminder sentence, whatever the time's text is. */
  lemma TimeInText(patientName: string, formattedTime: string, message: string)
    ensures
      var text := Compose(patientName, formattedTime, message);
      var start := |Greeting(patientName)| + |Intro|;
      var stop := |text| - |"." + DetailsLine(message) + Signature|;
      0 <= start <= stop <= |text| && text[start..stop] == formattedTime
  {
    assert Compose(patientName, formattedTime, message)
        == Greeting(patientName) + (Intro + formattedTime + ".") + (DetailsLine(message) + Signature);
    CutMiddle(Greeting(patientName), Intro, formattedTime, ".", DetailsLine(message) + Signature);
  }

  /** The text of a reminder says when the appointment is: between the reminder's opening
      words and the full stop that ends its sentence stands the formatted time, which
      `ReadAppointmentTimeRoundTrip` reads back to the appointment's date, hour and minute. */
  lemma TimeInMessage(patientName: string, appointmentTime: string, message: string,
                      fromIsoFormat: Parser)
    requires fromIsoFormat(ReplaceZulu(appointmentTime)).Some?
    ensures
      var text := FormatAppointmentMessage(patientName, appointmentTime, message, fromIsoFormat).value;
      var start := |Greeting(patientName)| + |Intro|;
      var stop := |text| - |"." + DetailsLine(message) + Signature|;
      0 <= start <= stop <= |text|
      && text[start..stop] == FormatAppointmentTime(fromIsoFormat(ReplaceZulu(appointmentTime)).value)
  {
    TimeInText(patientName, FormatAppointmentTime(fromIsoFormat(ReplaceZulu(appointmentTime)).value), message);
  }
}
