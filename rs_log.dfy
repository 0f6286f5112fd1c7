// The Rust server's `Logger` (src/log.rs): a name with an optional group
// and topic that prefix every message, and the access and error log files
// it writes to. An open file is a `LogFile` object; two fields holding the
// same object share one handle, as two clones of one `Arc<Mutex<File>>`
// do. Whether opening a file fails is a parameter; writing is left out.
module RustLog {
  import opened Wrappers
  import opened RustIo
  import Strings
  import RustPath

  /** An open log file and the path it was opened from. */
  class LogFile {
    const path: RustPath.Path

    constructor (path: RustPath.Path)
      ensures this.path == path
    {
      this.path := path;
    }
  }

  class Logger {
    var name: string
    var group: Option<string>
    var topic: Option<string>
    var accessFile: Option<RustPath.Path>
    var errorFile: Option<RustPath.Path>
    var access: Option<LogFile>
    var error: Option<LogFile>

    /** A file is open exactly when its path is set, it was opened from
        that path, and one path is never open through two handles. */
    predicate Valid()
      reads this
    {
      && (access.Some? <==> accessFile.Some?)
      && (error.Some? <==> errorFile.Some?)
      && (access.Some? ==> access.value.path == accessFile.value)
      && (error.Some? ==> error.value.path == errorFile.value)
      && (accessFile.Some? && accessFile == errorFile ==> access == error)
    }

    /** `Logger::new`: a name and nothing else. */
    constructor (name: string)
      ensures Valid()
      ensures this.name == name && group.None? && topic.None?
      ensures accessFile.None? && errorFile.None? && access.None? && error.None?
    {
      this.name := name;
      group := None;
      topic := None;
      accessFile := None;
      errorFile := None;
      access := None;
      error := None;
    }

    /** `format`: the action, the name and group in brackets, the topic
        followed by ` - `, and the message. */
    function Format(action: string, message: string): (r: string)
      reads this
      ensures group.Some? ==> Strings.StartsWith(r, action + " [" + name + "|" + group.value + "] ")
      ensures group.None? ==> Strings.StartsWith(r, action + " [" + name + "] ")
      ensures topic.Some? ==> Strings.EndsWith(r, "] " + topic.value + " - " + message)
      ensures topic.None? ==> Strings.EndsWith(r, "] " + message)
    {
      var lead := Lead(action);
      var tail := Tail(message);
      Strings.Ends(lead + "] ", tail);
      Strings.Ends(lead, "] " + tail);
      lead + "] " + tail
    }

    /** The line up to the closing bracket. */
    function Lead(action: string): (s: string)
      reads this
    {
      if group.Some? then action + " [" + name + "|" + group.value else action + " [" + name
    }

    /** The line after the closing bracket and its space. */
    function Tail(message: string): (s: string)
      reads this
    {
      if topic.Some? then topic.value + " - " + message else message
    }

    /** `set_group`. */
    method SetGroup(group: string)
      modifies this
      ensures this.group == Some(group)
      ensures name == old(name) && topic == old(topic)
      ensures accessFile == old(accessFile) && errorFile == old(errorFile)
      ensures access == old(access) && error == old(error)
      ensures old(Valid()) ==> Valid()
    {
      this.group := Some(group);
    }

    /** `set_topic`. */
    method SetTopic(topic: string)
      modifies this
      ensures this.topic == Some(topic)
      ensures name == old(name) && group == old(group)
      ensures accessFile == old(accessFile) && errorFile == old(errorFile)
      ensures access == old(access) && error == old(error)
      ensures old(Valid()) ==> Valid()
    {
      this.topic := Some(topic);
    }

    /** `clone`: a new logger with the same fields, sharing the open files. */
    method Clone() returns (copy: Logger)
      ensures fresh(copy)
      ensures copy.name == name && copy.group == group && copy.topic == topic
      ensures copy.accessFile == accessFile && copy.errorFile == errorFile
      ensures copy.access == access && copy.error == error
      ensures Valid() ==> copy.Valid()
    {
      copy := new Logger(name);
      copy.group := group;
      copy.topic := topic;
      copy.accessFile := accessFile;
      copy.errorFile := errorFile;
      copy.access := access;
      copy.error := error;
    }

    /** `as_group`: a copy with the group set; the receiver is unchanged. */
    method AsGroup(group: string) returns (copy: Logger)
      ensures fresh(copy) && copy.group == Some(group)
      ensures copy.name == name && copy.topic == topic
      ensures copy.accessFile == accessFile && copy.errorFile == errorFile
      ensures copy.access == access && copy.error == error
      ensures Valid() ==> copy.Valid()
    {
      copy := Clone();
      copy.SetGroup(group);
    }

    /** `as_topic`: a copy with the topic set; the receiver is unchanged. */
    method AsTopic(topic: string) returns (copy: Logger)
      ensures fresh(copy) && copy.topic == Some(topic)
      ensures copy.name == name && copy.group == group
      ensures copy.accessFile == accessFile && copy.errorFile == errorFile
      ensures copy.access == access && copy.error == error
      ensures Valid() ==> copy.Valid()
    {
      copy := Clone();
      copy.SetTopic(topic);
    }

    /** `set_access`: the error log's path shares its handle; the current
        path changes nothing; any other path is opened, and a failure to
        open it leaves the logger as it was. */
    method SetAccess(path: RustPath.Path, openFailure: Option<IoError>) returns (r: Result<(), IoError>)
      requires Valid()
      modifies this
      ensures Valid()
      ensures name == old(name) && group == old(group) && topic == old(topic)
      ensures errorFile == old(errorFile) && error == old(error)
      ensures old(errorFile) == Some(path) ==> r.Ok? && accessFile == Some(path) && access == old(error)
      ensures old(errorFile) != Some(path) && old(accessFile) == Some(path) ==>
                r.Ok? && accessFile == old(accessFile) && access == old(access)
      ensures old(errorFile) != Some(path) && old(accessFile) != Some(path) && openFailure.Some? ==>
                r == Err(openFailure.value) && accessFile == old(accessFile) && access == old(access)
      ensures old(errorFile) != Some(path) && old(accessFile) != Some(path) && openFailure.None? ==>
                r.Ok? && accessFile == Some(path) && access.Some? && fresh(access.value)
    {
      if errorFile == Some(path) {
        access := error;
        accessFile := Some(path);
        return Ok(());
      }
      if accessFile == Some(path) {
        return Ok(());
      }
      if openFailure.Some? {
        return Err(openFailure.value);
      }
      var file := new LogFile(path);
      access := Some(file);
      accessFile := Some(path);
      return Ok(());
    }

    /** `set_error`: `set_access` with the roles of the two logs swapped. */
    method SetError(path: RustPath.Path, openFailure: Option<IoError>) returns (r: Result<(), IoError>)
      requires Valid()
      modifies this
      ensures Valid()
      ensures name == old(name) && group == old(group) && topic == old(topic)
      ensures accessFile == old(accessFile) && access == old(access)
      ensures old(accessFile) == Some(path) ==> r.Ok? && errorFile == Some(path) && error == old(access)
      ensures old(accessFile) != Some(path) && old(errorFile) == Some(path) ==>
                r.Ok? && errorFile == old(errorFile) && error == old(error)
      ensures old(accessFile) != Some(path) && old(errorFile) != Some(path) && openFailure.Some? ==>
                r == Err(openFailure.value) && errorFile == old(errorFile) && error == old(error)
      ensures old(accessFile) != Some(path) && old(errorFile) != Some(path) && openFailure.None? ==>
                r.Ok? && errorFile == Some(path) && error.Some? && fresh(error.value)
    {
      if accessFile == Some(path) {
        error := access;
        errorFile := Some(path);
        return Ok(());
      }
      if errorFile == Some(path) {
        return Ok(());
      }
      if openFailure.Some? {
        return Err(openFailure.value);
      }
      var file := new LogFile(path);
      error := Some(file);
      errorFile := Some(path);
      return Ok(());
    }

    /** `set_logs`: the access log first, then the error log, each only
        when given; a failure on the access log leaves the error log as it
        was. Given the same path twice, both logs share one handle. */
    method SetLogs(accessPath: Option<RustPath.Path>, errorPath: Option<RustPath.Path>,
                   accessFailure: Option<IoError>, errorFailure: Option<IoError>)
      returns (r: Result<(), IoError>)
      requires Valid()
      modifies this
      ensures Valid()
      ensures name == old(name) && group == old(group) && topic == old(topic)
      ensures accessPath.None? ==> accessFile == old(accessFile) && access == old(access)
      ensures errorPath.None? ==> errorFile == old(errorFile) && error == old(error)
      ensures r.Ok? && accessPath.Some? ==> accessFile == accessPath
      ensures r.Ok? && errorPath.Some? ==> errorFile == errorPath
      ensures r.Ok? && accessPath.Some? && accessPath == errorPath ==> access == error
      ensures accessPath.Some? && old(accessFile) != accessPath && old(errorFile) != accessPath && accessFailure.Some? ==>
                r == Err(accessFailure.value) && errorFile == old(errorFile) && error == old(error)
      ensures accessPath.None? && errorPath.None? ==> r.Ok?
    {
      if accessPath.Some? {
        r := SetAccess(accessPath.value, accessFailure);
        if r.Err? {
          return r;
        }
      }
      if errorPath.Some? {
        r := SetError(errorPath.value, errorFailure);
        if r.Err? {
          return r;
        }
      }
      return Ok(());
    }

    /** `as_logs`: a copy with `set_logs` applied; the receiver keeps its
        files. */
    method AsLogs(accessPath: Option<RustPath.Path>, errorPath: Option<RustPath.Path>,
                  accessFailure: Option<IoError>, errorFailure: Option<IoError>)
      returns (r: Result<Logger, IoError>)
      requires Valid()
      ensures r.Ok? ==> fresh(r.value) && r.value.Valid()
      ensures r.Ok? && accessPath.Some? ==> r.value.accessFile == accessPath
      ensures r.Ok? && errorPath.Some? ==> r.value.errorFile == errorPath
      ensures r.Ok? ==> r.value.name == name && r.value.group == group && r.value.topic == topic
    {
      var copy := Clone();
      var done := copy.SetLogs(accessPath, errorPath, accessFailure, errorFailure);
      if done.Err? {
        return Err(done.error);
      }
      return Ok(copy);
    }
  }

  /** The four shapes of a message line, for a logger named `gemcaps`. */
  lemma FormatShapes(l: Logger)
    requires l.name == "gemcaps"
    ensures l.group == Some("g") && l.topic == Some("t") ==> l.Format("ACCES", "m") == "ACCES [gemcaps|g] t - m"
    ensures l.group == Some("g") && l.topic.None? ==> l.Format("ACCES", "m") == "ACCES [gemcaps|g] m"
    ensures l.group.None? && l.topic == Some("t") ==> l.Format("ACCES", "m") == "ACCES [gemcaps] t - m"
    ensures l.group.None? && l.topic.None? ==> l.Format("ACCES", "m") == "ACCES [gemcaps] m"
  {
    var grouped := "ACCES [gemcaps|g] ";
    var plain := "ACCES [gemcaps] ";
    assert "ACCES" + " [" + "gemcaps" + "|" + "g" + "] " == grouped;
    assert "ACCES" + " [" + "gemcaps" + "] " == plain;
    assert "t" + " - " + "m" == "t - m";
    assert grouped + "t - m" == "ACCES [gemcaps|g] t - m";
    assert grouped + "m" == "ACCES [gemcaps|g] m";
    assert plain + "t - m" == "ACCES [gemcaps] t - m";
    assert plain + "m" == "ACCES [gemcaps] m";
  }

  // ------------------------------------------------------------ reading a line back

  /** The fields a message line is made of. */
  datatype Fields = Fields(action: string, name: string, group: Option<string>, topic: Option<string>, message: string)

  /** The bracketed part: the name, then the group after the first `|`. */
  function SplitName(inner: string): (string, Option<string>) {
    match Strings.IndexOf(inner, '|')
    case None => (inner, None)
    case Some(p) => (inner[..p], Some(inner[p + 1..]))
  }

  /** The part after the brackets: a topic before the first ` - ` that
      begins at the first `-`, and the message. */
  function SplitTopic(tail: string): (Option<string>, string) {
    match Strings.IndexOf(tail, '-')
    case Some(d) =>
      if 1 <= d && d + 1 < |tail| && tail[d - 1] == ' ' && tail[d + 1] == ' ' then (Some(tail[..d - 1]), tail[d + 2..])
      else (None, tail)
    case None => (None, tail)
  }

  /** A log line read back into its fields: the action before ` [`, the
      bracketed name and group up to the first `]`, then the topic and the
      message; none when the line has no such shape. */
  function Parts(line: string): Option<Fields> {
    match Strings.IndexOf(line, '[')
    case None => None
    case Some(b) =>
      if b == 0 || line[b - 1] != ' ' then None
      else
        var rest := line[b + 1..];
        match Strings.IndexOf(rest, ']')
        case None => None
        case Some(c) =>
          var after := rest[c + 1..];
          if after == [] || after[0] != ' ' then None
          else
            var ng := SplitName(rest[..c]);
            var tm := SplitTopic(after[1..]);
            Some(Fields(line[..b - 1], ng.0, ng.1, tm.0, tm.1))
  }

  /** The text between the brackets. */
  function Inner(name: string, group: Option<string>): string {
    if group.Some? then name + "|" + group.value else name
  }

  /** The text after the brackets. */
  function After(topic: Option<string>, message: string): string {
    if topic.Some? then topic.value + " - " + message else message
  }

  /** The name and group come back from the bracketed text. */
  lemma SplitNameBack(name: string, group: Option<string>)
    requires '|' !in name
    ensures SplitName(Inner(name, group)) == (name, group)
  {
    if group.Some? {
      var inner := name + "|" + group.value;
      assert inner[..|name|] == name && inner[|name|] == '|';
      Strings.IndexOfIs(inner, '|', |name|);
      assert inner[|name| + 1..] == group.value;
    }
  }

  /** The topic and the message come back from the text after the
      brackets. */
  lemma SplitTopicBack(topic: Option<string>, message: string)
    requires topic.Some? ==> '-' !in topic.value
    requires topic.None? ==> '-' !in message
    ensures SplitTopic(After(topic, message)) == (topic, message)
  {
    if topic.Some? {
      var t := topic.value;
      var tail := t + " - " + message;
      var d := |t| + 1;
      assert tail[..d] == t + " " && tail[d] == '-';
      Strings.IndexOfIs(tail, '-', d);
      assert tail[d - 1] == ' ' && tail[d + 1] == ' ';
      assert tail[..d - 1] == t && tail[d + 2..] == message;
    }
  }

  /** A line built from an action without `[` and a bracketed text without
      `]` splits back at those brackets. */
  lemma LineBack(action: string, inner: string, tail: string)
    requires '[' !in action && ']' !in inner
    ensures var line := action + " [" + inner + "] " + tail;
      Parts(line) == Some(Fields(action, SplitName(inner).0, SplitName(inner).1, SplitTopic(tail).0, SplitTopic(tail).1))
  {
    var line := action + " [" + inner + "] " + tail;
    var b := |action| + 1;
    assert line[..b] == action + " " && line[b] == '[';
    Strings.IndexOfIs(line, '[', b);
    assert line[b - 1] == ' ' && line[..b - 1] == action;
    var rest := line[b + 1..];
    assert rest == inner + "] " + tail;
    assert rest[..|inner|] == inner && rest[|inner|] == ']';
    Strings.IndexOfIs(rest, ']', |inner|);
    assert rest[|inner| + 1..] == " " + tail;
    assert (" " + tail)[1..] == tail;
  }

  /** Every message line reads back into the action, the logger's name,
      group and topic, and the message, when the separators cannot be
      mistaken: no `[` in the action, no `]` or `|` in the name, no `]` in
      the group, no `-` in the topic, and, without a topic, no `-` in the
      message. */
  lemma FormatReadBack(l: Logger, action: string, message: string)
    requires '[' !in action && ']' !in l.name && '|' !in l.name
    requires l.group.Some? ==> ']' !in l.group.value
    requires l.topic.Some? ==> '-' !in l.topic.value
    requires l.topic.None? ==> '-' !in message
    ensures Parts(l.Format(action, message)) == Some(Fields(action, l.name, l.group, l.topic, message))
  {
    var inner := Inner(l.name, l.group);
    var tail := After(l.topic, message);
    assert ']' !in inner;
    assert l.Format(action, message) == action + " [" + inner + "] " + tail;
    LineBack(action, inner, tail);
    SplitNameBack(l.name, l.group);
    SplitTopicBack(l.topic, message);
  }
}
