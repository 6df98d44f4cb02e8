/**
 * Change events and the text the watcher sends to its subscribers.
 *
 * The watcher formats each event with fmt.Sprintf. The created and modified
 * messages are written with the verb "&s" instead of "%s", so Go prints the
 * verb literally and appends the unused path as "%!(EXTRA string=<path>)".
 * AsWritten models that text; Message is the evidently intended text and is
 * the one the rest of the model delivers.
 */
module Events {
  import opened Wrappers

  datatype Event = Created(path: string) | Modified(path: string) | Deleted(path: string)

  const CreatedPrefix: string := "File created: "
  const ModifiedPrefix: string := "File modified: "
  const DeletedPrefix: string := "File deleted: "

  /** Go's rendering of an argument that no verb consumed. */
  function Extra(p: string): string {
    "%!(EXTRA string=" + p + ")"
  }

  /** The text main.go actually produces for each event. */
  function AsWritten(e: Event): string {
    match e
    case Created(p) => CreatedPrefix + "&s" + Extra(p)
    case Modified(p) => ModifiedPrefix + "&s" + Extra(p)
    case Deleted(p) => DeletedPrefix + p
  }

  /** The intended text: "File <created|modified|deleted>: <path>". */
  function Message(e: Event): string {
    match e
    case Created(p) => CreatedPrefix + p
    case Modified(p) => ModifiedPrefix + p
    case Deleted(p) => DeletedPrefix + p
  }

  /** The messages for a sequence of events, in order. */
  function Messages(evs: seq<Event>): seq<string> {
    if evs == [] then [] else [Message(evs[0])] + Messages(evs[1..])
  }

  lemma {:induction false} MessagesConcat(a: seq<Event>, b: seq<Event>)
    ensures Messages(a + b) == Messages(a) + Messages(b)
  {
    if a == [] {
      assert a + b == b;
    } else {
      assert (a + b)[0] == a[0] && (a + b)[1..] == a[1..] + b;
      MessagesConcat(a[1..], b);
    }
  }

  /** A history that grew by the messages of b after those of a holds the messages of a + b. */
  lemma MessagesExtend(base: seq<string>, history: seq<string>, a: seq<Event>, b: seq<Event>, history': seq<string>)
    requires history == base + Messages(a) && history' == history + Messages(b)
    ensures history' == base + Messages(a + b)
  {
    MessagesConcat(a, b);
  }

  /** What a client reading the stream recovers from one message. */
  function Parse(s: string): Option<Event> {
    if |s| >= |CreatedPrefix| && s[..|CreatedPrefix|] == CreatedPrefix then
      Some(Created(s[|CreatedPrefix|..]))
    else if |s| >= |ModifiedPrefix| && s[..|ModifiedPrefix|] == ModifiedPrefix then
      Some(Modified(s[|ModifiedPrefix|..]))
    else if |s| >= |DeletedPrefix| && s[..|DeletedPrefix|] == DeletedPrefix then
      Some(Deleted(s[|DeletedPrefix|..]))
    else
      None
  }

  /** Round trip: every intended message parses back to its event. */
  lemma ParseMessage(e: Event)
    ensures Parse(Message(e)) == Some(e)
  {
    match e
    case Created(p) =>
      assert (CreatedPrefix + p)[..|CreatedPrefix|] == CreatedPrefix;
      assert (CreatedPrefix + p)[|CreatedPrefix|..] == p;
    case Modified(p) =>
      assert (ModifiedPrefix + p)[..|CreatedPrefix|][5] != CreatedPrefix[5];
      assert (ModifiedPrefix + p)[..|ModifiedPrefix|] == ModifiedPrefix;
      assert (ModifiedPrefix + p)[|ModifiedPrefix|..] == p;
    case Deleted(p) =>
      assert (DeletedPrefix + p)[..|CreatedPrefix|][5] != CreatedPrefix[5];
      assert |DeletedPrefix + p| >= |ModifiedPrefix| ==>
        (DeletedPrefix + p)[..|ModifiedPrefix|][5] != ModifiedPrefix[5];
      assert (DeletedPrefix + p)[..|DeletedPrefix|] == DeletedPrefix;
      assert (DeletedPrefix + p)[|DeletedPrefix|..] == p;
  }

  /** Distinct events never share a message, so subscribers can tell them apart. */
  lemma MessageInjective(e1: Event, e2: Event)
    requires Message(e1) == Message(e2)
    ensures e1 == e2
  {
    ParseMessage(e1);
    ParseMessage(e2);
  }

  /**
   * The text main.go sends for a created file does not give the path back:
   * whatever the path, a reader recovers the wrong one.
   */
  lemma AsWrittenLosesPath(p: string)
    ensures Parse(AsWritten(Created(p))) == Some(Created("&s" + Extra(p)))
    ensures Parse(AsWritten(Created(p))) != Some(Created(p))
  {
    var s := AsWritten(Created(p));
    assert s == CreatedPrefix + ("&s" + Extra(p));
    assert s[..|CreatedPrefix|] == CreatedPrefix;
    assert s[|CreatedPrefix|..] == "&s" + Extra(p);
    assert |"&s" + Extra(p)| > |p|;
  }

  /** The same holds for the modified message. */
  lemma AsWrittenModifiedLosesPath(p: string)
    ensures Parse(AsWritten(Modified(p))) == Some(Modified("&s" + Extra(p)))
    ensures Parse(AsWritten(Modified(p))) != Some(Modified(p))
  {
    var s := AsWritten(Modified(p));
    assert s == ModifiedPrefix + ("&s" + Extra(p));
    assert s[..|CreatedPrefix|][5] != CreatedPrefix[5];
    assert s[..|ModifiedPrefix|] == ModifiedPrefix;
    assert s[|ModifiedPrefix|..] == "&s" + Extra(p);
    assert |"&s" + Extra(p)| > |p|;
  }

  /** The deleted message is formatted correctly and agrees with the intended text. */
  lemma AsWrittenDeletedIsIntended(p: string)
    ensures AsWritten(Deleted(p)) == Message(Deleted(p))
    ensures Parse(AsWritten(Deleted(p))) == Some(Deleted(p))
  {
    ParseMessage(Deleted(p));
  }
}
