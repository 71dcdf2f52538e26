/** The notifications plugin itself: the lines it logs when the host loads it
    and the lines its `event` hook logs for each event. Console output is
    modelled as the sequence of lines written, in order. */
module Plugin {
  import opened TextUtil

  /** The tag every line of the plugin starts with. */
  const Tag: string := "[Warcraft Notifications]"

  /** `console.log(a, b)` with two strings: the two separated by a space. */
  function Logged(a: string, b: string): string {
    a + " " + b
  }

  // ---------------------------------------------------------------------
  // Initialisation
  // ---------------------------------------------------------------------

  const InitializedLine: string := Tag + " Plugin initialized"
  const ProjectLabel: string := Tag + " Project:"
  const WorktreeLabel: string := Tag + " Worktree:"

  /** The three lines logged when the plugin is loaded for a project. */
  function InitLines(projectId: string, worktree: string): (lines: seq<string>)
    ensures |lines| == 3
    ensures forall i :: 0 <= i < 3 ==> StartsWith(lines[i], Tag + " ")
    ensures lines[0] == InitializedLine
    ensures StartsWith(lines[1], ProjectLabel + " ") && StartsWith(lines[2], WorktreeLabel + " ")
    ensures EndsWith(lines[1], projectId) && EndsWith(lines[2], worktree)
  {
    var lines := [InitializedLine, Logged(ProjectLabel, projectId), Logged(WorktreeLabel, worktree)];
    LoggedParts(ProjectLabel, projectId);
    LoggedParts(WorktreeLabel, worktree);
    assert InitializedLine[..|Tag + " "|] == Tag + " ";
    lines
  }

  /** What follows a lead and its space. */
  function After(lead: string, line: string): string {
    if |line| >= |lead| + 1 then line[|lead| + 1..] else ""
  }

  lemma LoggedParts(lead: string, value: string)
    requires StartsWith(lead, Tag + " ")
    ensures StartsWith(Logged(lead, value), Tag + " ")
    ensures StartsWith(Logged(lead, value), lead + " ")
    ensures EndsWith(Logged(lead, value), value)
    ensures After(lead, Logged(lead, value)) == value
  {
    var line := Logged(lead, value);
    assert line[..|lead| + 1] == lead + " ";
    assert line[..|Tag + " "|] == lead[..|Tag + " "|];
    assert line[|lead| + 1..] == value;
  }

  /** The project id and the worktree can be read back from the log: the
      initialisation lines of two loads are the same only for the same
      project and worktree. */
  lemma InitLinesReadBack(projectId: string, worktree: string)
    ensures After(ProjectLabel, InitLines(projectId, worktree)[1]) == projectId
    ensures After(WorktreeLabel, InitLines(projectId, worktree)[2]) == worktree
  {
    LoggedParts(ProjectLabel, projectId);
    LoggedParts(WorktreeLabel, worktree);
  }

  // ---------------------------------------------------------------------
  // The event hook
  // ---------------------------------------------------------------------

  const ReceivedLabel: string := Tag + " Event received:"

  /** A notice line: the tag, an emoji, then the notice's text. */
  function Notice(icon: string, text: string): string {
    Tag + " " + icon + " " + text
  }

  lemma NoticeShape(icon: string, text: string)
    requires icon != []
    ensures StartsWith(Notice(icon, text), Tag + " ")
    ensures Notice(icon, text)[|Tag| + 1] == icon[0]
  {
    var n := Notice(icon, text);
    assert n == (Tag + " ") + (icon + " " + text);
    assert n[..|Tag + " "|] == Tag + " ";
  }

  /** The event hook: the received line with the event's type, then, for
      the four types the switch names, one notice line of its own; any other
      type logs nothing more. */
  function EventLines(eventType: string): (lines: seq<string>)
    ensures 1 <= |lines| <= 2
    ensures lines[0] == Logged(ReceivedLabel, eventType)
  {
    var received := Logged(ReceivedLabel, eventType);
    if eventType == "session.created" then
      [received, Notice("\U{1F3AE}", "New session started - Ready for battle!")]
    else if eventType == "session.error" then
      [received, Notice("\U{26A0}\U{FE0F}", "Session error - Something needs attention!")]
    else if eventType == "file.edited" then
      [received, Notice("\U{270F}\U{FE0F}", "File edited - Progress made!")]
    else if eventType == "command.executed" then
      [received, Notice("\U{26A1}", "Command executed - Work complete!")]
    else
      [received]
  }

  /** The notices of the plugin, by event type, as a table: the emoji and
      the text of each. */
  const Notices: map<string, (string, string)> := map[
    "session.created" := ("\U{1F3AE}", "New session started - Ready for battle!"),
    "session.error" := ("\U{26A0}\U{FE0F}", "Session error - Something needs attention!"),
    "file.edited" := ("\U{270F}\U{FE0F}", "File edited - Progress made!"),
    "command.executed" := ("\U{26A1}", "Command executed - Work complete!")
  ]

  /** The hook agrees with the table: a type in the table adds exactly its
      notice; any other type adds nothing. */
  lemma EventLinesByTable(eventType: string)
    ensures eventType in Notices ==>
      EventLines(eventType) == [Logged(ReceivedLabel, eventType), Notice(Notices[eventType].0, Notices[eventType].1)]
    ensures eventType !in Notices ==> EventLines(eventType) == [Logged(ReceivedLabel, eventType)]
  {
    assert Notices.Keys == {"session.created", "session.error", "file.edited", "command.executed"};
  }

  /** An event logs a second line exactly when its type is one of the four,
      and that line is a notice: tag first. */
  lemma SecondLineIffKnown(eventType: string)
    ensures |EventLines(eventType)| == 2 <==> eventType in Notices.Keys
    ensures |EventLines(eventType)| == 2 ==> StartsWith(EventLines(eventType)[1], Tag + " ")
  {
    EventLinesByTable(eventType);
    if eventType in Notices {
      NoticeShape(Notices[eventType].0, Notices[eventType].1);
    }
  }

  /** The event's type can be read back from the received line. */
  lemma ReceivedReadBack(eventType: string)
    ensures After(ReceivedLabel, EventLines(eventType)[0]) == eventType
  {
    LoggedParts(ReceivedLabel, eventType);
  }

  /** Different known events log different notices, so the second line
      tells which event came. */
  lemma NoticesDistinct(t1: string, t2: string)
    requires |EventLines(t1)| == 2 && |EventLines(t2)| == 2
    requires EventLines(t1)[1] == EventLines(t2)[1]
    ensures t1 == t2
  {
    SecondLineIffKnown(t1);
    SecondLineIffKnown(t2);
    EventLinesByTable(t1);
    EventLinesByTable(t2);
    var n1, n2 := Notices[t1], Notices[t2];
    NoticeShape(n1.0, n1.1);
    NoticeShape(n2.0, n2.1);
    assert n1.0[0] == n2.0[0];
  }
}
