/**
 * The older user commands (user.rs): its own `interactive_user_edit`, where
 * every text field is required and the call name gets no default, and
 * `user_add`, which keeps editing until the record is complete.
 *
 * user.rs repeats `read_password` and `read_bool` of user/common.rs word for
 * word, and its private `NewUser` record has the same fields as the public
 * one there; those are the definitions in `UserCommon`.
 * Its `read_string_value` is the required (non-optional) path of the one in
 * user/common.rs.
 */
module User {
  import opened Wrappers
  import Text
  import opened UserCommon

  /* ---------------- read_string_value ---------------- */

  /** user.rs's `read_string_value` always yields Some non-empty text: the
      trimmed line, or the old value when the line is blank. */
  lemma {:induction false} RequiredReadOutcome(input: seq<string>, i: nat, oldVal: Option<string>)
    requires i <= |input|
    ensures var r := ReadStringFrom(input, i, oldVal, false);
      r.Done? ==>
        && r.value.Some? && r.value.value != ""
        && r.value.value == Resolve(input[r.next - 1], OldText(oldVal))
  {
    ReadStringOutcome(input, i, oldVal, false);
  }

  /* ---------------- interactive_user_edit ---------------- */

  /** The text part of user.rs's `interactive_user_edit`: email, name, call
      name and organisation, all required, each offered its own old value. */
  function EditTextsFrom(u: UserData, stdin: seq<string>, i: nat): (r: Reply<UserData>)
    requires i <= |stdin|
    ensures r.Done? ==> i < r.next <= |stdin|
    ensures r.Done? ==> r.value.isPublic == u.isPublic && r.value.gdprConsent == u.gdprConsent
                        && r.value.active == u.active
  {
    match ReadStringFrom(stdin, i, u.email, false)
    case OutOfInput => OutOfInput
    case Done(email, i1) =>
    match ReadStringFrom(stdin, i1, u.name, false)
    case OutOfInput => OutOfInput
    case Done(name, i2) =>
    match ReadStringFrom(stdin, i2, u.callName, false)
    case OutOfInput => OutOfInput
    case Done(callName, i3) =>
    match ReadStringFrom(stdin, i3, u.institution, false)
    case OutOfInput => OutOfInput
    case Done(institution, i4) =>
      Done(u.(email := email, name := name, callName := callName, institution := institution), i4)
  }

  /** user.rs's `interactive_user_edit`: the text fields, then the password
      from the terminal, then the three flags. */
  function EditFrom(u: UserData, stdin: seq<string>, i: nat, tty: seq<string>, j: nat)
    : (r: Option<Edited>)
    requires i <= |stdin| && j <= |tty|
    ensures r.Some? ==> i < r.value.stdinNext <= |stdin| && j < r.value.ttyNext <= |tty|
  {
    match EditTextsFrom(u, stdin, i)
    case OutOfInput => None
    case Done(u1, i1) =>
    match ReadPasswordFrom(tty, j)
    case OutOfInput => None
    case Done(password, j1) =>
    match EditFlagsFrom(u1, stdin, i1)
    case OutOfInput => None
    case Done(u2, i2) => Some(Edited(u2, password, i2, j1))
  }

  /** After the text part every text field is Some non-empty text. */
  lemma EditTextsOutcome(u: UserData, stdin: seq<string>, i: nat)
    requires i <= |stdin|
    ensures var r := EditTextsFrom(u, stdin, i);
      r.Done? ==>
        && r.value.email.Some? && r.value.email.value != ""
        && r.value.name.Some? && r.value.name.value != ""
        && r.value.callName.Some? && r.value.callName.value != ""
        && r.value.institution.Some? && r.value.institution.value != ""
  {
    var r := EditTextsFrom(u, stdin, i);
    if r.Done? {
      var e := ReadStringFrom(stdin, i, u.email, false);
      RequiredReadOutcome(stdin, i, u.email);
      var n := ReadStringFrom(stdin, e.next, u.name, false);
      RequiredReadOutcome(stdin, e.next, u.name);
      var c := ReadStringFrom(stdin, n.next, u.callName, false);
      RequiredReadOutcome(stdin, n.next, u.callName);
      RequiredReadOutcome(stdin, c.next, u.institution);
    }
  }

  /**
   * With no old call name, none is derived from the name: the call name
   * that comes back is the trimmed last line read at its own prompt (line
   * `k`, after the email and name prompts).
   */
  lemma CallNameNotDerived(u: UserData, stdin: seq<string>, i: nat) returns (k: nat)
    requires i <= |stdin| && u.callName.None?
    ensures var r := EditTextsFrom(u, stdin, i);
      r.Done? ==> i <= k < r.next && r.value.callName == Some(Text.Trim(stdin[k]))
    ensures var e := ReadStringFrom(stdin, i, u.email, false);
      e.Done? ==>
        var n := ReadStringFrom(stdin, e.next, u.name, false);
        n.Done? ==>
          var c := ReadStringFrom(stdin, n.next, u.callName, false);
          c.Done? ==> n.next <= k == c.next - 1
  {
    k := i;
    var e := ReadStringFrom(stdin, i, u.email, false);
    if e.Done? {
      var n := ReadStringFrom(stdin, e.next, u.name, false);
      if n.Done? {
        var c := ReadStringFrom(stdin, n.next, u.callName, false);
        if c.Done? {
          RequiredReadOutcome(stdin, n.next, u.callName);
          k := c.next - 1;
        }
      }
    }
  }

  /**
   * After an editing round every text field is Some non-empty text, and the
   * password is empty or was confirmed by a matching repeat on the terminal.
   */
  lemma EditOutcome(u: UserData, stdin: seq<string>, i: nat, tty: seq<string>, j: nat)
    requires i <= |stdin| && j <= |tty|
    ensures var r := EditFrom(u, stdin, i, tty, j);
      r.Some? ==>
        && r.value.user.email.Some? && r.value.user.email.value != ""
        && r.value.user.name.Some? && r.value.user.name.value != ""
        && r.value.user.callName.Some? && r.value.user.callName.value != ""
        && r.value.user.institution.Some? && r.value.user.institution.value != ""
        && (r.value.password != "" ==>
              r.value.ttyNext >= j + 2
              && tty[r.value.ttyNext - 2] == r.value.password && tty[r.value.ttyNext - 1] == r.value.password)
  {
    var t := EditTextsFrom(u, stdin, i);
    EditTextsOutcome(u, stdin, i);
    var p := ReadPasswordFrom(tty, j);
    ReadPasswordOutcome(tty, j);
    if t.Done? && p.Done? {
      var f := EditFlagsFrom(t.value, stdin, t.next);
      if f.Done? {
        assert EditFrom(u, stdin, i, tty, j) == Some(Edited(f.value, p.value, f.next, p.next));
      }
    }
  }

  /** The text part of user.rs's `interactive_user_edit`, on a snapshot of
      the record. */
  method EditTexts(u: UserData, stdin: seq<string>, start: nat) returns (r: Reply<UserData>)
    requires start <= |stdin|
    ensures r == EditTextsFrom(u, stdin, start)
  {
    r := OutOfInput;
    var s := ReadStringValue(stdin, start, u.email, false);
    if s.OutOfInput? { return; }
    var email := s.value;
    s := ReadStringValue(stdin, s.next, u.name, false);
    if s.OutOfInput? { return; }
    var name := s.value;
    s := ReadStringValue(stdin, s.next, u.callName, false);
    if s.OutOfInput? { return; }
    var callName := s.value;
    s := ReadStringValue(stdin, s.next, u.institution, false);
    if s.OutOfInput? { return; }
    r := Done(u.(email := email, name := name, callName := callName, institution := s.value), s.next);
  }

  /** user.rs's `interactive_user_edit`: overwrites the fields of `user` and
      returns the password entered (None when an input stream runs out). */
  method InteractiveUserEdit(user: NewUser, stdin: seq<string>, start: nat, tty: seq<string>, ttyStart: nat)
    returns (password: Option<string>, stdinNext: nat, ttyNext: nat)
    requires start <= |stdin| && ttyStart <= |tty|
    modifies user
    ensures var r := EditFrom(old(user.Data()), stdin, start, tty, ttyStart);
      && (password.Some? <==> r.Some?)
      && (r.Some? ==>
            && password.value == r.value.password
            && user.Data() == r.value.user
            && stdinNext == r.value.stdinNext
            && ttyNext == r.value.ttyNext)
  {
    password, stdinNext, ttyNext := None, start, ttyStart;
    var texts := EditTexts(user.Data(), stdin, start);
    if texts.OutOfInput? { return; }
    var newPassword := ReadPassword(tty, ttyStart);
    if newPassword.OutOfInput? { return; }
    var flags := EditFlags(texts.value, stdin, texts.next);
    if flags.OutOfInput? { return; }
    user.Store(flags.value);
    password, stdinNext, ttyNext := Some(newPassword.value), flags.next, newPassword.next;
  }

  /* ---------------- user_add ---------------- */

  /** The command-line options of `user add`. */
  datatype AddOpts = AddOpts(
    active: bool,
    callName: Option<string>,
    email: Option<string>,
    gdprConsent: bool,
    institution: Option<string>,
    name: Option<string>,
    password: Option<string>,
    public: bool)

  /** The record `user_add` starts from: the options as given. */
  function InitialData(opts: AddOpts): (d: UserData)
    ensures d.email == opts.email && d.name == opts.name && d.callName == opts.callName
    ensures d.institution == opts.institution
    ensures d.isPublic == opts.public && d.gdprConsent == opts.gdprConsent && d.active == opts.active
  {
    UserData(opts.email, opts.name, opts.callName, opts.institution, opts.public, opts.gdprConsent, opts.active)
  }

  /** The password `user_add` starts from: the option, or empty. */
  function InitialPassword(opts: AddOpts): (p: string)
    ensures opts.password.Some? ==> p == opts.password.value
    ensures opts.password.None? ==> p == ""
  {
    opts.password.GetOr("")
  }

  /** The test of `user_add`: an email, a name and a non-empty password. The
      submitter built afterwards unwraps the email (user.rs:109). */
  predicate Complete(d: UserData, password: string)
    ensures Complete(d, password) ==> d.email.Some? && password != ""
  {
    d.email.Some? && d.name.Some? && password != ""
  }

  /** What `user_add` hands on: the record to store and the password to hash. */
  datatype Submission = Submission(user: UserData, password: string)

  /** The retry loop of `user_add`: editing rounds until one ends complete;
      the last round, or None when an input stream runs out. */
  function EditUntilComplete(d: UserData, stdin: seq<string>, i: nat, tty: seq<string>, j: nat)
    : (r: Option<Edited>)
    requires i <= |stdin| && j <= |tty|
    ensures r.Some? ==> i < r.value.stdinNext <= |stdin| && j < r.value.ttyNext <= |tty|
    decreases |stdin| - i
  {
    match EditFrom(d, stdin, i, tty, j)
    case None => None
    case Some(e) =>
      if Complete(e.user, e.password) then Some(e)
      else EditUntilComplete(e.user, stdin, e.stdinNext, tty, e.ttyNext)
  }

  /**
   * The retry loop stops only on a complete round: its record has every text
   * field set to non-empty text, and its password is non-empty and was
   * confirmed by a matching repeat on the terminal.
   */
  lemma {:induction false} EditUntilCompleteOutcome(d: UserData, stdin: seq<string>, i: nat, tty: seq<string>, j: nat)
    requires i <= |stdin| && j <= |tty|
    ensures var r := EditUntilComplete(d, stdin, i, tty, j);
      r.Some? ==>
        && Complete(r.value.user, r.value.password)
        && r.value.user.email.value != "" && r.value.user.name.value != ""
        && r.value.ttyNext >= j + 2
        && tty[r.value.ttyNext - 2] == r.value.password && tty[r.value.ttyNext - 1] == r.value.password
    decreases |stdin| - i
  {
    var e := EditFrom(d, stdin, i, tty, j);
    EditOutcome(d, stdin, i, tty, j);
    if e.Some? && !Complete(e.value.user, e.value.password) {
      EditUntilCompleteOutcome(e.value.user, stdin, e.value.stdinNext, tty, e.value.ttyNext);
    }
  }

  /**
   * `user_add` AS WRITTEN (after the uid): the loop at user.rs:96-102 binds
   * the entered password to a new `password` that shadows the outer one, so
   * the password hashed at user.rs:105 is always the initial one, although
   * the record is complete.
   */
  function UserAddAsWritten(opts: AddOpts, stdin: seq<string>, tty: seq<string>): (r: Option<Submission>)
    ensures r.Some? ==> r.value.password == InitialPassword(opts)
    ensures r.Some? ==> r.value.user.email.Some? && r.value.user.name.Some?
  {
    var d := InitialData(opts);
    EditUntilCompleteOutcome(d, stdin, 0, tty, 0);
    var password := InitialPassword(opts);
    if Complete(d, password) then Some(Submission(d, password))
    else
      match EditUntilComplete(d, stdin, 0, tty, 0)
      case None => None
      case Some(e) => Some(Submission(e.user, password))
  }

  /** `user_add` as intended: the password of the completing round is hashed.
      It hands on a complete submission, with the same record as the code as
      written and in the same cases. */
  function UserAddSpec(opts: AddOpts, stdin: seq<string>, tty: seq<string>): (r: Option<Submission>)
    ensures r.Some? ==> Complete(r.value.user, r.value.password)
    ensures r.Some? <==> UserAddAsWritten(opts, stdin, tty).Some?
    ensures r.Some? ==> r.value.user == UserAddAsWritten(opts, stdin, tty).value.user
  {
    var d := InitialData(opts);
    EditUntilCompleteOutcome(d, stdin, 0, tty, 0);
    var password := InitialPassword(opts);
    if Complete(d, password) then Some(Submission(d, password))
    else
      match EditUntilComplete(d, stdin, 0, tty, 0)
      case None => None
      case Some(e) => Some(Submission(e.user, e.password))
  }

  /**
   * What `user_add` promises (corrected): the submission always has an email,
   * a name and a non-empty password. With complete options nothing is asked
   * and the options are taken as they are; otherwise the password was
   * confirmed on the terminal and the email and name are non-empty.
   */
  lemma UserAddOutcome(opts: AddOpts, stdin: seq<string>, tty: seq<string>)
    ensures var r := UserAddSpec(opts, stdin, tty);
      && (Complete(InitialData(opts), InitialPassword(opts)) ==>
            r == Some(Submission(InitialData(opts), InitialPassword(opts))))
      && (r.Some? ==> Complete(r.value.user, r.value.password))
      && (r.Some? && !Complete(InitialData(opts), InitialPassword(opts)) ==>
            r.value.user.email.value != "" && r.value.user.name.value != "" && r.value.password in tty)
  {
    var d := InitialData(opts);
    EditUntilCompleteOutcome(d, stdin, 0, tty, 0);
    var e := EditUntilComplete(d, stdin, 0, tty, 0);
    if e.Some? {
      assert tty[e.value.ttyNext - 1] == e.value.password;
    }
  }

  /**
   * The shadowing bug: when no password option is given, every run that
   * gets past the loop hashes the empty password, although the loop only
   * ended because a non-empty password was confirmed.
   */
  lemma ShadowedPasswordIsEmpty(opts: AddOpts, stdin: seq<string>, tty: seq<string>)
    requires opts.password.None?
    ensures UserAddAsWritten(opts, stdin, tty).Some? ==> UserAddAsWritten(opts, stdin, tty).value.password == ""
    ensures UserAddSpec(opts, stdin, tty).Some? ==> UserAddSpec(opts, stdin, tty).value.password != ""
    ensures UserAddAsWritten(opts, stdin, tty).Some? <==> UserAddSpec(opts, stdin, tty).Some?
  {
    UserAddOutcome(opts, stdin, tty);
  }

  /**
   * A concrete run: email and name given, no password option. Blank lines
   * keep the email and name, "Ann" and "Uni" answer the call name and
   * organisation, blank lines keep the flags, and "secret" is typed twice.
   * The code as written hashes "", the intended behaviour hashes "secret".
   */
  lemma ShadowedPasswordExample()
    ensures var opts := AddOpts(false, None, Some("a@b"), false, None, Some("Ann"), None, false);
      && UserAddAsWritten(opts, ["", "", "Ann", "Uni", "", "", ""], ["secret", "secret"]).Some?
      && UserAddAsWritten(opts, ["", "", "Ann", "Uni", "", "", ""], ["secret", "secret"]).value.password == ""
      && UserAddSpec(opts, ["", "", "Ann", "Uni", "", "", ""], ["secret", "secret"]).value.password == "secret"
  {
    var opts := AddOpts(false, None, Some("a@b"), false, None, Some("Ann"), None, false);
    var stdin := ["", "", "Ann", "Uni", "", "", ""];
    var tty := ["secret", "secret"];
    var d := InitialData(opts);
    assert Text.Trim("") == "";
    assert Text.Trim("Ann") == "Ann";
    assert Text.Trim("Uni") == "Uni";
    var t := EditTextsFrom(d, stdin, 0);
    assert t == Done(d.(callName := Some("Ann"), institution := Some("Uni")), 4);
    assert Text.Lower("") == "";
    var f := EditFlagsFrom(t.value, stdin, 4);
    assert f == Done(t.value, 7);
    assert ReadPasswordFrom(tty, 0) == Done("secret", 2);
    assert EditFrom(d, stdin, 0, tty, 0) == Some(Edited(t.value, "secret", 7, 2));
  }

  /**
   * `user_add` (corrected, after the uid): builds the record from the
   * options and, when it is incomplete, runs editing rounds until one ends
   * complete, keeping the password of that round.
   */
  method UserAdd(opts: AddOpts, stdin: seq<string>, tty: seq<string>) returns (r: Option<Submission>)
    ensures r == UserAddSpec(opts, stdin, tty)
  {
    var newUser := new NewUser(InitialData(opts));
    var password := opts.password.GetOr("");
    if newUser.email.None? || newUser.name.None? || password == "" {
      var i: nat, j: nat := 0, 0;
      while true
        invariant i <= |stdin| && j <= |tty|
        invariant EditUntilComplete(InitialData(opts), stdin, 0, tty, 0)
                  == EditUntilComplete(newUser.Data(), stdin, i, tty, j)
        decreases |stdin| - i
      {
        ghost var before := newUser.Data();
        var entered, i', j' := InteractiveUserEdit(newUser, stdin, i, tty, j);
        if entered.None? {
          return None;
        }
        password := entered.value;
        ghost var round := Edited(newUser.Data(), password, i', j');
        assert EditFrom(before, stdin, i, tty, j) == Some(round);
        if newUser.email.Some? && newUser.name.Some? && password != "" {
          assert EditUntilComplete(before, stdin, i, tty, j) == Some(round);
          break;
        }
        i, j := i', j';
      }
    }
    r := Some(Submission(newUser.Data(), password));
  }
}
