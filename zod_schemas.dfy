/** The form validators: the workspace and project name schemas and the task
    create and update schemas, as parsers from raw form fields to the parsed
    values, None meaning the input is rejected. */
module ZodSchemas {
  import opened Types

  /** A raw form field: missing, a string, a number, an uploaded file, or any
      other value (null, a boolean, an object). */
  datatype Field = Absent | Str(s: string) | Num(n: int) | FileValue(file: nat) | Other

  // ---------------------------------------------------------------------------
  // Workspace and project names

  const MinNameLength := 3
  const MaxNameLength := 156

  /** The raw fields of the workspace and project forms. */
  datatype NamedInput = NamedInput(name: Field, thumbnail: Field)

  datatype NamedForm = NamedForm(name: string, thumbnail: Option<nat>)

  datatype NamedUpdate = NamedUpdate(name: Option<string>, thumbnail: Option<nat>)

  /** `z.string().min(3).max(156)`: both bounds inclusive, the string kept as is. */
  function ParseName(f: Field): (r: Option<string>)
    ensures r.Some? <==> f.Str? && MinNameLength <= |f.s| <= MaxNameLength
    ensures r.Some? ==> r.value == f.s
  {
    match f
    case Str(s) => if |s| < MinNameLength then None else if |s| > MaxNameLength then None else Some(s)
    case _ => None
  }

  /** `z.instanceof(File).optional()`: a file or nothing. */
  function ParseThumbnail(f: Field): (r: Option<Option<nat>>)
    ensures r.Some? <==> f.Absent? || f.FileValue?
    ensures r == Some(None) <==> f.Absent?
    ensures f.FileValue? ==> r == Some(Some(f.file))
  {
    match f
    case Absent => Some(None)
    case FileValue(file) => Some(Some(file))
    case _ => None
  }

  /** `createWorkspaceSchema`, and `createProjectSchema`, which is the same
      schema: a name of 3 to 156 characters and an optional thumbnail file. */
  function CreateNamedSchema(input: NamedInput): (r: Option<NamedForm>)
    ensures r.Some? <==> input.name.Str? && MinNameLength <= |input.name.s| <= MaxNameLength
                          && (input.thumbnail.Absent? || input.thumbnail.FileValue?)
    ensures r.Some? ==> r.value.name == input.name.s
                        && r.value.thumbnail == (if input.thumbnail.FileValue? then Some(input.thumbnail.file) else None)
  {
    var name := ParseName(input.name);
    var thumbnail := ParseThumbnail(input.thumbnail);
    if name.None? || thumbnail.None? then None else Some(NamedForm(name.value, thumbnail.value))
  }

  /** `updateWorkspaceSchema`, and `updateProjectSchema`, which is the same
      schema: the name may be left out, but a name given has 3 to 156
      characters. */
  function UpdateNamedSchema(input: NamedInput): (r: Option<NamedUpdate>)
    ensures r.Some? <==> (input.name.Absent? || (input.name.Str? && MinNameLength <= |input.name.s| <= MaxNameLength))
                          && (input.thumbnail.Absent? || input.thumbnail.FileValue?)
    ensures r.Some? ==> r.value.name == (if input.name.Str? then Some(input.name.s) else None)
    ensures r.Some? ==> r.value.thumbnail == (if input.thumbnail.FileValue? then Some(input.thumbnail.file) else None)
  {
    var name := if input.name.Absent? then Some(None) else if ParseName(input.name).Some? then Some(ParseName(input.name)) else None;
    var thumbnail := ParseThumbnail(input.thumbnail);
    if name.None? || thumbnail.None? then None else Some(NamedUpdate(name.value, thumbnail.value))
  }

  /** Whatever the create schema accepts, the update schema accepts with the
      same name and thumbnail. */
  lemma CreateAcceptedImpliesUpdateAccepted(input: NamedInput)
    requires CreateNamedSchema(input).Some?
    ensures UpdateNamedSchema(input) == Some(NamedUpdate(Some(CreateNamedSchema(input).value.name),
                                                         CreateNamedSchema(input).value.thumbnail))
  {
  }

  // ---------------------------------------------------------------------------
  // Trimming

  /** The characters `String.prototype.trim` removes: the ECMAScript
      WhiteSpace code points (tab, vertical tab, form feed, space, no-break
      space, the byte order mark and the space separators) and the
      LineTerminator code points. */
  predicate IsJsWhitespace(c: char)
  {
    || c == '\t' || c == '\U{B}' || c == '\U{C}' || c == ' ' || c == '\U{A0}' || c == '\U{FEFF}'
    || c == '\U{1680}' || ('\U{2000}' <= c <= '\U{200A}') || c == '\U{202F}' || c == '\U{205F}' || c == '\U{3000}'
    || c == '\n' || c == '\r' || c == '\U{2028}' || c == '\U{2029}'
  }

  predicate AllWhitespace(s: string)
  {
    forall k | 0 <= k < |s| :: IsJsWhitespace(s[k])
  }

  /** The string with its leading whitespace removed. */
  function TrimStart(s: string): (r: string)
    ensures |r| <= |s| && r == s[|s| - |r|..]
    ensures AllWhitespace(s[..|s| - |r|])
    ensures r == [] || !IsJsWhitespace(r[0])
  {
    if s != [] && IsJsWhitespace(s[0]) then
      var rest := TrimStart(s[1..]);
      assert s[..|s| - |rest|] == [s[0]] + s[1..][..|s[1..]| - |rest|];
      rest
    else s
  }

  /** The string with its trailing whitespace removed. */
  function TrimEnd(s: string): (r: string)
    ensures |r| <= |s| && r == s[..|r|]
    ensures AllWhitespace(s[|r|..])
    ensures r == [] || !IsJsWhitespace(r[|r| - 1])
  {
    if s != [] && IsJsWhitespace(s[|s| - 1]) then
      var rest := TrimEnd(s[..|s| - 1]);
      assert s[|rest|..] == s[..|s| - 1][|rest|..] + [s[|s| - 1]];
      rest
    else s
  }

  /** `String.prototype.trim`, as `z.string().trim()` applies it. */
  function Trim(s: string): (r: string)
    ensures exists i, j | 0 <= i <= j <= |s| :: r == s[i..j] && AllWhitespace(s[..i]) && AllWhitespace(s[j..])
    ensures r == [] || (!IsJsWhitespace(r[0]) && !IsJsWhitespace(r[|r| - 1]))
  {
    var front := TrimStart(s);
    var r := TrimEnd(front);
    var i := |s| - |front|;
    assert r == s[i..i + |r|];
    assert s[i + |r|..] == front[|r|..];
    r
  }

  /** The trimmed string is empty exactly when the string is all whitespace. */
  lemma {:induction false} TrimEmptyIffAllWhitespace(s: string)
    ensures Trim(s) == [] <==> AllWhitespace(s)
  {
    var i, j :| 0 <= i <= j <= |s| && Trim(s) == s[i..j] && AllWhitespace(s[..i]) && AllWhitespace(s[j..]);
    if Trim(s) == [] {
      forall k | 0 <= k < |s| ensures IsJsWhitespace(s[k]) {
        if k < i {
          assert s[k] == s[..i][k];
        } else {
          assert s[k] == s[j..][k - j];
        }
      }
    } else {
      assert s[i] == Trim(s)[0];
    }
  }

  /** Trimming twice is trimming once. */
  lemma TrimIsIdempotent(s: string)
    ensures Trim(Trim(s)) == Trim(s)
  {
    var t := Trim(s);
    if t != [] {
      assert !IsJsWhitespace(t[0]);
      assert TrimStart(t) == t;
      assert TrimEnd(t) == t;
    }
  }

  /** `z.string().trim().min(1)`: a string with some non-whitespace character,
      parsed to its trimmed form. */
  function RequiredTrimmed(f: Field): (r: Option<string>)
    ensures r.Some? <==> f.Str? && !AllWhitespace(f.s)
    ensures r.Some? ==> r.value == Trim(f.s) && |r.value| >= 1
  {
    match f
    case Str(s) =>
      TrimEmptyIffAllWhitespace(s);
      var t := Trim(s);
      if |t| < 1 then None else Some(t)
    case _ => None
  }

  // ---------------------------------------------------------------------------
  // Tasks

  /** The raw fields of the task forms. */
  datatype TaskInput = TaskInput(
    name: Field, status: Field, workspaceId: Field, projectId: Field,
    dueDate: Field, assigneeId: Field, description: Field)

  datatype TaskForm = TaskForm(
    name: string, status: TaskStatus, workspaceId: string, projectId: string,
    dueDate: int, assigneeId: string, description: Option<string>)

  datatype TaskUpdate = TaskUpdate(
    name: Option<string>, status: Option<TaskStatus>, workspaceId: Option<string>, projectId: Option<string>,
    dueDate: Option<int>, assigneeId: Option<string>, description: Option<string>)

  /** `z.nativeEnum(TaskStatus)`: one of the five wire spellings. */
  function ParseStatus(f: Field): (r: Option<TaskStatus>)
    ensures r.Some? ==> f == Str(StatusName(r.value))
    ensures f.Str? && StatusFromName(f.s).Some? ==> r.Some?
  {
    if f.Str? then StatusFromName(f.s) else None
  }

  /** Every status spelling is accepted and read back as that status. */
  lemma StatusFieldRoundTrip(s: TaskStatus)
    ensures ParseStatus(Str(StatusName(s))) == Some(s)
  {
    StatusNameRoundTrip(s);
  }

  /** `.optional()` around a parser: a missing field parses to None. */
  function Optional<T>(f: Field, parsed: Option<T>): (r: Option<Option<T>>)
    ensures r.Some? <==> f.Absent? || parsed.Some?
  {
    if f.Absent? then Some(None) else if parsed.Some? then Some(parsed) else None
  }

  function ParseNumber(f: Field): (r: Option<int>)
    ensures r.Some? <==> f.Num?
  {
    if f.Num? then Some(f.n) else None
  }

  function ParseString(f: Field): (r: Option<string>)
    ensures r.Some? <==> f.Str?
  {
    if f.Str? then Some(f.s) else None
  }

  /** `createTaskSchema`: name, workspace, project and assignee must hold a
      non-whitespace character and are kept trimmed; the status is one of the
      five; the due date is a number; the description may be left out. */
  function CreateTaskSchema(input: TaskInput): (r: Option<TaskForm>)
    ensures r.Some? <==>
              && input.name.Str? && !AllWhitespace(input.name.s)
              && ParseStatus(input.status).Some?
              && input.workspaceId.Str? && !AllWhitespace(input.workspaceId.s)
              && input.projectId.Str? && !AllWhitespace(input.projectId.s)
              && input.dueDate.Num?
              && input.assigneeId.Str? && !AllWhitespace(input.assigneeId.s)
              && (input.description.Absent? || input.description.Str?)
    ensures r.Some? ==>
              && r.value.name == Trim(input.name.s)
              && input.status == Str(StatusName(r.value.status))
              && r.value.workspaceId == Trim(input.workspaceId.s)
              && r.value.projectId == Trim(input.projectId.s)
              && r.value.dueDate == input.dueDate.n
              && r.value.assigneeId == Trim(input.assigneeId.s)
              && r.value.description == (if input.description.Str? then Some(input.description.s) else None)
  {
    var name := RequiredTrimmed(input.name);
    var status := ParseStatus(input.status);
    var workspaceId := RequiredTrimmed(input.workspaceId);
    var projectId := RequiredTrimmed(input.projectId);
    var dueDate := ParseNumber(input.dueDate);
    var assigneeId := RequiredTrimmed(input.assigneeId);
    var description := Optional(input.description, ParseString(input.description));
    if name.None? || status.None? || workspaceId.None? || projectId.None? || dueDate.None?
       || assigneeId.None? || description.None?
    then None
    else Some(TaskForm(name.value, status.value, workspaceId.value, projectId.value, dueDate.value,
                       assigneeId.value, description.value))
  }

  /** `updateTaskSchema`: every field may be left out; a field given must pass
      the same check as in `createTaskSchema`. */
  function UpdateTaskSchema(input: TaskInput): (r: Option<TaskUpdate>)
    ensures r.Some? <==>
              && (input.name.Absent? || (input.name.Str? && !AllWhitespace(input.name.s)))
              && (input.status.Absent? || ParseStatus(input.status).Some?)
              && (input.workspaceId.Absent? || (input.workspaceId.Str? && !AllWhitespace(input.workspaceId.s)))
              && (input.projectId.Absent? || (input.projectId.Str? && !AllWhitespace(input.projectId.s)))
              && (input.dueDate.Absent? || input.dueDate.Num?)
              && (input.assigneeId.Absent? || (input.assigneeId.Str? && !AllWhitespace(input.assigneeId.s)))
              && (input.description.Absent? || input.description.Str?)
    ensures r.Some? ==> r.value.name == (if input.name.Str? then Some(Trim(input.name.s)) else None)
    ensures r.Some? ==> r.value.status == (if input.status.Absent? then None else ParseStatus(input.status))
    ensures r.Some? ==> r.value.workspaceId == (if input.workspaceId.Str? then Some(Trim(input.workspaceId.s)) else None)
    ensures r.Some? ==> r.value.projectId == (if input.projectId.Str? then Some(Trim(input.projectId.s)) else None)
    ensures r.Some? ==> r.value.dueDate == (if input.dueDate.Num? then Some(input.dueDate.n) else None)
    ensures r.Some? ==> r.value.assigneeId == (if input.assigneeId.Str? then Some(Trim(input.assigneeId.s)) else None)
    ensures r.Some? ==> r.value.description == (if input.description.Str? then Some(input.description.s) else None)
  {
    var name := Optional(input.name, RequiredTrimmed(input.name));
    var status := Optional(input.status, ParseStatus(input.status));
    var workspaceId := Optional(input.workspaceId, RequiredTrimmed(input.workspaceId));
    var projectId := Optional(input.projectId, RequiredTrimmed(input.projectId));
    var dueDate := Optional(input.dueDate, ParseNumber(input.dueDate));
    var assigneeId := Optional(input.assigneeId, RequiredTrimmed(input.assigneeId));
    var description := Optional(input.description, ParseString(input.description));
    if name.None? || status.None? || workspaceId.None? || projectId.None? || dueDate.None?
       || assigneeId.None? || description.None?
    then None
    else Some(TaskUpdate(name.value, status.value, workspaceId.value, projectId.value, dueDate.value,
                         assigneeId.value, description.value))
  }

  /** A complete task form that passes the create schema also passes the update
      schema, with every field parsed to the same value. */
  lemma CreateTaskAcceptedImpliesUpdateAccepted(input: TaskInput)
    requires CreateTaskSchema(input).Some?
    ensures var c := CreateTaskSchema(input).value;
            UpdateTaskSchema(input) == Some(TaskUpdate(Some(c.name), Some(c.status), Some(c.workspaceId),
                                                       Some(c.projectId), Some(c.dueDate), Some(c.assigneeId),
                                                       c.description))
  {
  }

  /** An empty update form passes. */
  lemma EmptyUpdateAccepted()
    ensures UpdateTaskSchema(TaskInput(Absent, Absent, Absent, Absent, Absent, Absent, Absent))
            == Some(TaskUpdate(None, None, None, None, None, None, None))
  {
  }

  /** A name made of whitespace only (the empty name included) is rejected by
      both task schemas. */
  lemma BlankNameRejected(input: TaskInput)
    requires input.name.Str? && AllWhitespace(input.name.s)
    ensures CreateTaskSchema(input).None? && UpdateTaskSchema(input).None?
  {
  }
}
