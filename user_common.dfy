/**
 * Interactive editing of a user record (user/common.rs). Each reader prompts,
 * reads a line and loops until the line is acceptable. Standard input and the
 * terminal that passwords are read from are two separate sequences of lines;
 * a reader starts at an index into its sequence and reports the index after
 * the last line it consumed. Running out of lines is an explicit outcome.
 */
module UserCommon {
  import opened Wrappers
  import Text

  /** What a reader produced, and where the next reader starts. */
  datatype Reply<T> = Done(value: T, next: nat) | OutOfInput

  /* ---------------- read_string_value ---------------- */

  function OldText(oldVal: Option<string>): string {
    oldVal.GetOr("")
  }

  /** One line as `read_string_value` takes it: trimmed, and replaced by the
      old value when nothing is left. */
  function Resolve(line: string, oldText: string): string {
    var t := Text.Trim(line);
    if t == "" then oldText else t
  }

  /** The loop of `read_string_value`, from line `i` on: prompts while lines
      remain. */
  function ReadStringFrom(input: seq<string>, i: nat, oldVal: Option<string>, optional: bool)
    : (r: Reply<Option<string>>)
    requires i <= |input|
    ensures r.Done? ==> i < r.next <= |input|
    decreases |input| - i, 1
  {
    if i == |input| then OutOfInput else ReadStringLine(input, i, oldVal, optional)
  }

  /** One pass of the `read_string_value` loop, on line `i`: a non-empty
      resolved value ends it, as does a blank line for an optional field;
      otherwise the loop goes round again. */
  function ReadStringLine(input: seq<string>, i: nat, oldVal: Option<string>, optional: bool)
    : (r: Reply<Option<string>>)
    requires i < |input|
    ensures r.Done? ==> i < r.next <= |input|
    decreases |input| - i, 0
  {
    var v := Resolve(input[i], OldText(oldVal));
    if |v| > 0 then Done(Some(v), i + 1)
    else if optional then Done(None, i + 1)
    else ReadStringFrom(input, i + 1, oldVal, optional)
  }

  /**
   * What `read_string_value` promises. It returns Some(v) only with v
   * non-empty: the trimmed line, or the old value for a blank line. An
   * optional field takes exactly one line and gives None for a blank line
   * with no old value; a required field skips such lines until one resolves.
   */
  lemma {:induction false} ReadStringOutcome(
    input: seq<string>, i: nat, oldVal: Option<string>, optional: bool)
    requires i <= |input|
    ensures var r := ReadStringFrom(input, i, oldVal, optional);
      && (r.Done? ==>
            && (forall k :: i <= k < r.next - 1 ==> Resolve(input[k], OldText(oldVal)) == "")
            && (r.value.Some? ==>
                  r.value.value == Resolve(input[r.next - 1], OldText(oldVal)) && r.value.value != "")
            && (r.value.None? <==> optional && Resolve(input[r.next - 1], OldText(oldVal)) == "")
            && (optional ==> r.next == i + 1))
      && (r.OutOfInput? ==>
            && (forall k :: i <= k < |input| ==> Resolve(input[k], OldText(oldVal)) == "")
            && (optional ==> i == |input|))
    decreases |input| - i
  {
    if i < |input| && Resolve(input[i], OldText(oldVal)) == "" && !optional {
      ReadStringOutcome(input, i + 1, oldVal, optional);
    }
  }

  /** With a non-empty old value a blank line keeps it: one line is read. */
  lemma BlankLineKeepsOld(input: seq<string>, i: nat, oldText: string, optional: bool)
    requires i < |input| && oldText != "" && Text.AllWhitespace(input[i])
    ensures ReadStringFrom(input, i, Some(oldText), optional) == Done(Some(oldText), i + 1)
  {
    Text.TrimBothEnds(input[i]);
  }

  /** `read_string_value`. */
  method ReadStringValue(input: seq<string>, start: nat, oldVal: Option<string>, optional: bool)
    returns (r: Reply<Option<string>>)
    requires start <= |input|
    ensures r == ReadStringFrom(input, start, oldVal, optional)
  {
    var oldText := match oldVal case Some(v) => v case None => "";
    var i := start;
    var newVal: string;
    while true
      invariant start <= i <= |input|
      invariant ReadStringFrom(input, start, oldVal, optional) == ReadStringFrom(input, i, oldVal, optional)
      decreases |input| - i
    {
      if i == |input| {
        return OutOfInput;
      }
      var tmp := Text.Trim(input[i]);
      i := i + 1;
      if tmp == "" {
        tmp := oldText;
      }
      newVal := tmp;
      if |newVal| > 0 {
        break;
      }
      if optional {
        return Done(None, i);
      }
    }
    r := Done(Some(newVal), i);
  }

  /* ---------------- read_password ---------------- */

  /** The loop of `read_password` over the terminal's lines, from line `i` on:
      an empty entry ends it at once; a non-empty one needs a matching repeat. */
  function ReadPasswordFrom(tty: seq<string>, i: nat): (r: Reply<string>)
    requires i <= |tty|
    ensures r.Done? ==> i < r.next <= |tty|
    decreases |tty| - i
  {
    if i == |tty| then OutOfInput
    else if tty[i] == "" then Done("", i + 1)
    else if i + 1 == |tty| then OutOfInput
    else if tty[i] == tty[i + 1] then Done(tty[i], i + 2)
    else ReadPasswordFrom(tty, i + 2)
  }

  /** A pair of entries that `read_password` rejects as a mismatch. */
  predicate Mismatch(tty: seq<string>, k: nat)
    requires k + 1 < |tty|
  {
    tty[k] != "" && tty[k] != tty[k + 1]
  }

  /**
   * What `read_password` promises: the result is either empty (the last entry
   * was empty) or a non-empty entry confirmed by the repeat that follows it,
   * and every attempt before it was a mismatched pair.
   */
  lemma {:induction false} ReadPasswordOutcome(tty: seq<string>, i: nat)
    requires i <= |tty|
    ensures var r := ReadPasswordFrom(tty, i);
      r.Done? ==>
        && (r.value == "" ==> tty[r.next - 1] == "")
        && (r.value != "" ==> r.next >= i + 2 && tty[r.next - 2] == r.value && tty[r.next - 1] == r.value)
        && (r.value == "" <==> (r.next - i) % 2 == 1)
        && (forall k :: i <= k < r.next - 2 && (k - i) % 2 == 0 ==> Mismatch(tty, k))
    decreases |tty| - i
  {
    if i + 1 < |tty| && tty[i] != "" && tty[i] != tty[i + 1] {
      ReadPasswordOutcome(tty, i + 2);
    }
  }

  /** `read_password`. */
  method ReadPassword(tty: seq<string>, start: nat) returns (r: Reply<string>)
    requires start <= |tty|
    ensures r == ReadPasswordFrom(tty, start)
  {
    var i := start;
    var password: string;
    var passwordRepeat: string;
    while true
      invariant start <= i <= |tty|
      invariant ReadPasswordFrom(tty, start) == ReadPasswordFrom(tty, i)
      decreases |tty| - i
    {
      if i == |tty| {
        return OutOfInput;
      }
      password := tty[i];
      i := i + 1;
      if password == "" {
        break;
      }
      if i == |tty| {
        return OutOfInput;
      }
      passwordRepeat := tty[i];
      i := i + 1;
      if password == passwordRepeat {
        break;
      }
    }
    r := Done(password, i);
  }

  /* ---------------- read_bool ---------------- */

  /** How `read_bool` classifies one line. */
  datatype Answer = Yes | No | Keep | Unrecognised

  /** The token table of `read_bool`, on the lower-cased, trimmed line. */
  function ParseBoolLine(line: string): Answer {
    var t := Text.Trim(Text.Lower(line));
    if t in {"t", "true", "y", "yes"} then Yes
    else if t in {"f", "false", "n", "no"} then No
    else if t == "" then Keep
    else Unrecognised
  }

  function Decide(a: Answer, oldVal: bool): bool {
    match a
    case Yes => true
    case No => false
    case _ => oldVal
  }

  /** The loop of `read_bool`, from line `i` on: prompts while lines remain. */
  function ReadBoolFrom(input: seq<string>, i: nat, oldVal: bool): (r: Reply<bool>)
    requires i <= |input|
    ensures r.Done? ==> i < r.next <= |input|
    decreases |input| - i, 1
  {
    if i == |input| then OutOfInput else ReadBoolLine(input, i, oldVal)
  }

  /** One pass of the `read_bool` loop, on line `i`: a recognised line decides,
      any other line sends the loop round again. */
  function ReadBoolLine(input: seq<string>, i: nat, oldVal: bool): (r: Reply<bool>)
    requires i < |input|
    ensures r.Done? ==> i < r.next <= |input|
    decreases |input| - i, 0
  {
    match ParseBoolLine(input[i])
    case Unrecognised => ReadBoolFrom(input, i + 1, oldVal)
    case a => Done(Decide(a, oldVal), i + 1)
  }

  /**
   * What `read_bool` promises: unrecognised lines are skipped (re-prompted);
   * the first recognised line decides, true for t/true/y/yes, false for
   * f/false/n/no and the old value for a blank line.
   */
  lemma {:induction false} ReadBoolOutcome(input: seq<string>, i: nat, oldVal: bool)
    requires i <= |input|
    ensures var r := ReadBoolFrom(input, i, oldVal);
      && (r.Done? ==>
            && (forall k :: i <= k < r.next - 1 ==> ParseBoolLine(input[k]) == Unrecognised)
            && ParseBoolLine(input[r.next - 1]) != Unrecognised
            && r.value == Decide(ParseBoolLine(input[r.next - 1]), oldVal))
      && (r.OutOfInput? ==> forall k :: i <= k < |input| ==> ParseBoolLine(input[k]) == Unrecognised)
    decreases |input| - i
  {
    if i < |input| {
      var a := ParseBoolLine(input[i]);
      if a == Unrecognised {
        ReadBoolOutcome(input, i + 1, oldVal);
        assert ReadBoolFrom(input, i, oldVal) == ReadBoolFrom(input, i + 1, oldVal);
      } else {
        assert ReadBoolFrom(input, i, oldVal) == Done(Decide(a, oldVal), i + 1);
      }
    }
  }

  /** A line keeps the old value exactly when it is blank: lower-casing
      neither makes nor unmakes whitespace. */
  lemma BlankLineKeepsFlag(line: string)
    ensures ParseBoolLine(line) == Keep <==> Text.AllWhitespace(line)
  {
    Text.LowerKeepsBlank(line);
    Text.TrimBothEnds(Text.Lower(line));
  }

  /** Concrete tokens: case and surrounding whitespace do not matter. */
  lemma BoolTokenExamples()
    ensures ParseBoolLine(" Yes\n") == Yes
    ensures ParseBoolLine("N") == No
    ensures ParseBoolLine("\n") == Keep
    ensures ParseBoolLine("maybe") == Unrecognised
  {
    assert Text.Lower(" Yes\n") == " yes\n";
    assert Text.Trim(" yes\n") == "yes";
    assert Text.Lower("N") == "n";
    assert Text.Trim("n") == "n";
    assert Text.Lower("\n") == "\n";
    assert Text.Lower("maybe") == "maybe";
    assert Text.Trim("maybe") == "maybe";
  }

  /** `read_bool`. */
  method ReadBool(input: seq<string>, start: nat, oldVal: bool) returns (r: Reply<bool>)
    requires start <= |input|
    ensures r == ReadBoolFrom(input, start, oldVal)
  {
    var i := start;
    var newVal: bool;
    while true
      invariant start <= i <= |input|
      invariant ReadBoolFrom(input, start, oldVal) == ReadBoolFrom(input, i, oldVal)
      decreases |input| - i
    {
      if i == |input| {
        return OutOfInput;
      }
      var line := input[i];
      i := i + 1;
      var t := Text.Trim(Text.Lower(line));
      if t in {"t", "true", "y", "yes"} {
        newVal := true;
        break;
      } else if t in {"f", "false", "n", "no"} {
        newVal := false;
        break;
      } else if t == "" {
        newVal := oldVal;
        break;
      }
    }
    r := Done(newVal, i);
  }

  /* ---------------- interactive_user_edit ---------------- */

  /** The fields of `NewUser`, as a value. */
  datatype UserData = UserData(
    email: Option<string>,
    name: Option<string>,
    callName: Option<string>,
    institution: Option<string>,
    isPublic: bool,
    gdprConsent: bool,
    active: bool)

  /** `NewUser`, whose fields the editor overwrites in turn. */
  class NewUser {
    var email: Option<string>
    var name: Option<string>
    var callName: Option<string>
    var institution: Option<string>
    var isPublic: bool
    var gdprConsent: bool
    var active: bool

    constructor (d: UserData)
      ensures Data() == d
    {
      email := d.email;
      name := d.name;
      callName := d.callName;
      institution := d.institution;
      isPublic := d.isPublic;
      gdprConsent := d.gdprConsent;
      active := d.active;
    }

    function Data(): UserData
      reads this
    {
      UserData(email, name, callName, institution, isPublic, gdprConsent, active)
    }

    /** Overwrites every field, as the editing round does one by one. */
    method Store(d: UserData)
      modifies this
      ensures Data() == d
    {
      email, name, callName, institution := d.email, d.name, d.callName, d.institution;
      isPublic, gdprConsent, active := d.isPublic, d.gdprConsent, d.active;
    }
  }

  /**
   * The default offered for the call name: with no call name and a name, the
   * name's text before its first space; otherwise the call name as it is.
   */
  function DefaultCallName(callName: Option<string>, name: Option<string>): (r: Option<string>)
    ensures callName.Some? ==> r == callName
    ensures callName.None? && name.None? ==> r.None?
    ensures callName.None? && name.Some? ==>
              && r.Some? && ' ' !in r.value
              && |r.value| <= |name.value| && r.value == name.value[..|r.value|]
              && (|r.value| == |name.value| || name.value[|r.value|] == ' ')
  {
    if callName.None? && name.Some? then Some(Text.BeforeFirst(name.value, ' '))
    else callName
  }

  /** The result of one editing round: the new fields, the password entered
      and where each input stream stands afterwards. */
  datatype Edited = Edited(user: UserData, password: string, stdinNext: nat, ttyNext: nat)

  /**
   * The text part of `interactive_user_edit`: email (required), name, call
   * name (offered a default derived from the name) and organisation
   * (optional), each read from standard input in turn.
   */
  function EditTextsFrom(u: UserData, stdin: seq<string>, i: nat): (r: Reply<UserData>)
    requires i <= |stdin|
    ensures r.Done? ==> i < r.next <= |stdin|
    ensures r.Done? ==> r.value.isPublic == u.isPublic && r.value.gdprConsent == u.gdprConsent
                        && r.value.active == u.active
  {
    match ReadStringFrom(stdin, i, u.email, false)
    case OutOfInput => OutOfInput
    case Done(email, i1) =>
    match ReadStringFrom(stdin, i1, u.name, true)
    case OutOfInput => OutOfInput
    case Done(name, i2) =>
    match ReadStringFrom(stdin, i2, DefaultCallName(u.callName, name), true)
    case OutOfInput => OutOfInput
    case Done(callName, i3) =>
    match ReadStringFrom(stdin, i3, u.institution, true)
    case OutOfInput => OutOfInput
    case Done(institution, i4) =>
      Done(u.(email := email, name := name, callName := callName, institution := institution), i4)
  }

  /** The flag part of `interactive_user_edit`: public, GDPR consent and
      active, read from standard input in turn. */
  function EditFlagsFrom(u: UserData, stdin: seq<string>, i: nat): (r: Reply<UserData>)
    requires i <= |stdin|
    ensures r.Done? ==> i < r.next <= |stdin|
    ensures r.Done? ==> r.value.email == u.email && r.value.name == u.name
                        && r.value.callName == u.callName && r.value.institution == u.institution
  {
    match ReadBoolFrom(stdin, i, u.isPublic)
    case OutOfInput => OutOfInput
    case Done(isPublic, i1) =>
    match ReadBoolFrom(stdin, i1, u.gdprConsent)
    case OutOfInput => OutOfInput
    case Done(gdprConsent, i2) =>
    match ReadBoolFrom(stdin, i2, u.active)
    case OutOfInput => OutOfInput
    case Done(active, i3) =>
      Done(u.(isPublic := isPublic, gdprConsent := gdprConsent, active := active), i3)
  }

  /**
   * `interactive_user_edit`: the text fields from standard input, then the
   * password from the terminal, then the three flags. None when either
   * stream runs out.
   */
  function EditFrom(u: UserData, stdin: seq<string>, i: nat, tty: seq<string>, j: nat)
    : (r: Option<Edited>)
    requires i <= |stdin| && j <= |tty|
    ensures r.Some? ==> i < r.value.stdinNext <= |stdin| && j < r.value.ttyNext <= |tty|
  {
    match EditTextsFrom(u, stdin, i)
    case OutOfInput => None
    case Done(u1, i1) =>
    match ReadPasswordFrom(tty, j)
    case OutOfInput => None
    case Done(password, j1) =>
    match EditFlagsFrom(u1, stdin, i1)
    case OutOfInput => None
    case Done(u2, i2) => Some(Edited(u2, password, i2, j1))
  }

  /** After the text part the email is set and non-empty, and every other
      text field is either absent or non-empty. */
  lemma EditTextsOutcome(u: UserData, stdin: seq<string>, i: nat)
    requires i <= |stdin|
    ensures var r := EditTextsFrom(u, stdin, i);
      r.Done? ==>
        && r.value.email.Some? && r.value.email.value != ""
        && (r.value.name.Some? ==> r.value.name.value != "")
        && (r.value.callName.Some? ==> r.value.callName.value != "")
        && (r.value.institution.Some? ==> r.value.institution.value != "")
  {
    var r := EditTextsFrom(u, stdin, i);
    if r.Done? {
      var e := ReadStringFrom(stdin, i, u.email, false);
      ReadStringOutcome(stdin, i, u.email, false);
      var n := ReadStringFrom(stdin, e.next, u.name, true);
      ReadStringOutcome(stdin, e.next, u.name, true);
      var c := ReadStringFrom(stdin, n.next, DefaultCallName(u.callName, n.value), true);
      ReadStringOutcome(stdin, n.next, DefaultCallName(u.callName, n.value), true);
      ReadStringOutcome(stdin, c.next, u.institution, true);
    }
  }

  /**
   * After an editing round the email is set and non-empty, every other text
   * field is either absent or non-empty, and the password is empty or was
   * confirmed by a matching repeat on the terminal.
   */
  lemma EditOutcome(u: UserData, stdin: seq<string>, i: nat, tty: seq<string>, j: nat)
    requires i <= |stdin| && j <= |tty|
    ensures var r := EditFrom(u, stdin, i, tty, j);
      r.Some? ==>
        && r.value.user.email.Some? && r.value.user.email.value != ""
        && (r.value.user.name.Some? ==> r.value.user.name.value != "")
        && (r.value.user.callName.Some? ==> r.value.user.callName.value != "")
        && (r.value.user.institution.Some? ==> r.value.user.institution.value != "")
        && (r.value.password != "" ==>
              tty[r.value.ttyNext - 2] == r.value.password && tty[r.value.ttyNext - 1] == r.value.password)
  {
    var t := EditTextsFrom(u, stdin, i);
    EditTextsOutcome(u, stdin, i);
    var p := ReadPasswordFrom(tty, j);
    ReadPasswordOutcome(tty, j);
    if t.Done? && p.Done? {
      var f := EditFlagsFrom(t.value, stdin, t.next);
      if f.Done? {
        assert EditFrom(u, stdin, i, tty, j) == Some(Edited(f.value, p.value, f.next, p.next));
      }
    }
  }

  /** The text part of `interactive_user_edit`, on a snapshot of the record. */
  method EditTexts(u: UserData, stdin: seq<string>, start: nat) returns (r: Reply<UserData>)
    requires start <= |stdin|
    ensures r == EditTextsFrom(u, stdin, start)
  {
    r := OutOfInput;
    var s := ReadStringValue(stdin, start, u.email, false);
    if s.OutOfInput? { return; }
    var email := s.value;
    s := ReadStringValue(stdin, s.next, u.name, true);
    if s.OutOfInput? { return; }
    var name := s.value;
    var callName := u.callName;
    if callName.None? && name.Some? {
      callName := Some(Text.BeforeFirst(name.value, ' '));
    }
    s := ReadStringValue(stdin, s.next, callName, true);
    if s.OutOfInput? { return; }
    callName := s.value;
    s := ReadStringValue(stdin, s.next, u.institution, true);
    if s.OutOfInput? { return; }
    r := Done(u.(email := email, name := name, callName := callName, institution := s.value), s.next);
  }

  /** The flag part of `interactive_user_edit`, on a snapshot of the record. */
  method EditFlags(u: UserData, stdin: seq<string>, start: nat) returns (r: Reply<UserData>)
    requires start <= |stdin|
    ensures r == EditFlagsFrom(u, stdin, start)
  {
    r := OutOfInput;
    var b := ReadBool(stdin, start, u.isPublic);
    if b.OutOfInput? { return; }
    var isPublic := b.value;
    b := ReadBool(stdin, b.next, u.gdprConsent);
    if b.OutOfInput? { return; }
    var gdprConsent := b.value;
    b := ReadBool(stdin, b.next, u.active);
    if b.OutOfInput? { return; }
    r := Done(u.(isPublic := isPublic, gdprConsent := gdprConsent, active := b.value), b.next);
  }

  /** `interactive_user_edit`: overwrites the fields of `user` and returns
      the password entered (None when an input stream runs out). */
  method InteractiveUserEdit(user: NewUser, stdin: seq<string>, start: nat, tty: seq<string>, ttyStart: nat)
    returns (password: Option<string>, stdinNext: nat, ttyNext: nat)
    requires start <= |stdin| && ttyStart <= |tty|
    modifies user
    ensures var r := EditFrom(old(user.Data()), stdin, start, tty, ttyStart);
      && (password.Some? <==> r.Some?)
      && (r.Some? ==>
            && password.value == r.value.password
            && user.Data() == r.value.user
            && stdinNext == r.value.stdinNext
            && ttyNext == r.value.ttyNext)
  {
    password, stdinNext, ttyNext := None, start, ttyStart;
    var texts := EditTexts(user.Data(), stdin, start);
    if texts.OutOfInput? { return; }
    var newPassword := ReadPassword(tty, ttyStart);
    if newPassword.OutOfInput? { return; }
    var flags := EditFlags(texts.value, stdin, texts.next);
    if flags.OutOfInput? { return; }
    user.Store(flags.value);
    password, stdinNext, ttyNext := Some(newPassword.value), flags.next, newPassword.next;
  }
}
