# MIBiG submission back end: the modelled core

This project models the small pieces of logic in the MIBiG submission back
end (a Rust service built on Rocket and Diesel) that can be stated and
checked without a database, a web server or a terminal:

- the `<tag>:<id>` string codecs of the MIBiG JSON schema:
  - `Publication`, which exists twice, in `models/schema/publication.rs` and
    `models/schema.rs`;
  - the compound cross-reference `DatabaseId`;
- the integer codec of a gene's `Strand`;
- the case-insensitive string `CiString`;
- the error type `MibigError`: its display text, its `source()` and the
  HTTP response it turns into;
- the interactive editing of a user record on the command line:
  - the readers for text fields, passwords and yes/no flags;
  - `interactive_user_edit` in `user/common.rs` and in `user.rs`;
  - the completeness retry loop of `user_add` in `user.rs`.

Modules:

- `Wrappers`: `Option` and `Result`.
- `Text`: the parts of Rust's string library the code relies on.
  - `char::is_whitespace` (the Unicode White_Space set) and `str::trim`;
  - `str::to_lowercase` on ASCII;
  - `splitn(2, sep)`.
- `Publication`, `Schema`, `Compound`, `Genes`, `Types` and `Errors`: pure
  functions with lemmas.
- `UserCommon` and `User`: the interactive user editing.

The interactive editing reads two inputs. Standard input is a `seq<string>`
of lines. The terminal the password is read from is a second `seq<string>`.
Every reader takes an input and the index of its next unread line. It returns
either `Done(value, next)` or `OutOfInput`.

Each reader has two forms:

- a method with the original `loop`, proved equal to a specification function;
- the specification function itself, whose behaviour is stated by an outcome
  lemma.

The user record is a class, `NewUser`, whose fields the editing methods
overwrite.

## Model

| member | source | states |
|---|---|---|
| Publication.Tag | src/models/schema/publication.rs:25-30 | every tag is a non-empty word of lower-case ASCII letters, so it holds no `:` |
| Publication.TypeOfTag | src/models/schema/publication.rs:55-61 | a tag is recognised exactly when it is one of the four lower-case tags `pubmed`, `doi`, `url`, `patent`, and the recognised type writes that same tag back |
| Publication.Serialize | src/models/schema/publication.rs:20-34 | the output's first `:` comes right after the type's tag, and everything after it is the id verbatim |
| Publication.VisitStr | src/models/schema/publication.rs:49-70 | "invalid publication format" exactly when the text has no `:`; "invalid publication type" exactly when the text before the first `:` is not a known tag; no other error; every accepted text is the serialisation of what it parses to |
| Publication.RoundTrip | src/models/schema/publication.rs:20-66 | parsing the serialisation of any publication gives it back |
| Publication.ParsesExactlySerialisations | src/models/schema/publication.rs:49-66 | a text parses to `p` if and only if it is the serialisation of `p` |
| Publication.SerializeInjective | src/models/schema/publication.rs:25-31 | distinct publications never serialise alike |
| Publication.IdKeptWhole | src/models/schema/publication.rs:53-66 | an id after any tag comes back whole, colons and emptiness included |
| Publication.UrlIdKeepsColons | src/models/schema/publication.rs:53-66 | `url:https://example.org` parses to a URL with id `https://example.org` |
| Publication.EmptyIdAccepted | src/models/schema/publication.rs:53-66 | `doi:` parses to a DOI with an empty id |
| Publication.UpperCaseTagRejected | src/models/schema/publication.rs:55-61 | `DOI:1` is a type error: tags are case-sensitive |
| Schema.Tag | src/models/schema.rs:66-71 | every tag is a non-empty word of lower-case ASCII letters, so it holds no `:` |
| Schema.TypeOfTag | src/models/schema.rs:96-102 | the same four exact tags are recognised and written back |
| Schema.Serialize | src/models/schema.rs:61-75 | the first `:` follows the tag and the rest is the id verbatim |
| Schema.VisitStr | src/models/schema.rs:90-111 | format error exactly without a `:`, type error exactly for an unknown tag, and an accepted text is the serialisation of its result |
| Schema.RoundTrip | src/models/schema.rs:61-107 | parsing the serialisation gives the publication back |
| Schema.ToSharedType | src/models/schema.rs:43-49 | each type corresponds to the type of `models/schema/publication.rs` that has the same tag |
| Schema.AgreesWithPublicationCodec | src/models/schema.rs:61-116 | the duplicate codec serialises identically to the one in `models/schema/publication.rs` and parses every text to the corresponding result and the same error |
| Compound.Tag | src/models/schema/compound.rs:69-75 | every tag is a non-empty word of lower-case ASCII letters, so it holds no `:` |
| Compound.TypeOfTag | src/models/schema/compound.rs:100-107 | exactly the five lower-case tags are recognised, and each is written back by its database |
| Compound.TagsDistinct | src/models/schema/compound.rs:69-75 | two databases have the same tag only if they are the same database, and the tag table reads each tag back |
| Compound.Serialize | src/models/schema/compound.rs:64-79 | the first `:` follows the database's tag and the rest is the id verbatim |
| Compound.VisitStr | src/models/schema/compound.rs:94-116 | "invalid database id format" exactly without a `:`, "invalid database id type" exactly for an unknown tag, and an accepted text is the serialisation of its result |
| Compound.RoundTrip | src/models/schema/compound.rs:64-112 | parsing the serialisation of any id gives it back, whatever the id holds |
| Compound.ParsesExactlySerialisations | src/models/schema/compound.rs:94-112 | a text parses to `d` if and only if it is the serialisation of `d` |
| Compound.ChemblNotChemspider | src/models/schema/compound.rs:100-107 | `chembl:` and `chemspider:` texts parse to ChEMBL and ChemSpider respectively, for any id |
| Genes.Serialize | src/models/schema/genes.rs:78-89 | the encoding is 1 exactly for Forward and -1 exactly for Reverse |
| Genes.VisitI64 | src/models/schema/genes.rs:104-114 | accepts exactly 1 and -1, each decoding to the strand that encodes to it; any other value gives "invalid strand value" |
| Genes.VisitU64 | src/models/schema/genes.rs:116-126 | accepts only 1, as Forward; any other value gives "invalid strand value" |
| Genes.DeserializeJson | src/models/schema/genes.rs:116-129 | a JSON integer decodes exactly when it is 1 or -1, to the strand that encodes to it; any other integer in the 64-bit ranges gives "invalid strand value", and one outside them is rejected as a floating-point value |
| Genes.RoundTrip | src/models/schema/genes.rs:83-126 | decoding the encoding of either strand gives it back, through the JSON path and through the i64 path |
| Genes.ZeroRejected | src/models/schema/genes.rs:111-123 | 0 is rejected by both decoders |
| Types.New | src/utils/typedefs/types.rs:24-30 | `new()` holds the empty text, and equals exactly the empty text |
| Types.From | src/utils/typedefs/types.rs:99-111 | conversion from text keeps the text exactly |
| Types.FromStr | src/utils/typedefs/types.rs:84-91 | `from_str` never fails and keeps the text exactly |
| Types.Into | src/utils/typedefs/types.rs:93-97 | `into()` gives the original text, from which the value is rebuilt unchanged |
| Types.Display | src/utils/typedefs/types.rs:32-36 | the display text is the original, un-lower-cased text, the same as `Into<String>` |
| Types.Eq | src/utils/typedefs/types.rs:38-42 | identical texts are equal, and equal values have texts of the same length under the ASCII lower-casing of the model (the lower-cased comparison itself is the definition) |
| Types.EqText | src/utils/typedefs/types.rs:44-54 | comparing with a `String` or `&str` is comparing with its conversion to a `CiString` |
| Types.HashInput | src/utils/typedefs/types.rs:58-62 | the text fed to the hasher, as a value, equals the value it came from, and under the ASCII lower-casing of the model it has the value's length |
| Types.Hash | src/utils/typedefs/types.rs:58-62 | hashing a value gives the same as hashing its lower-cased copy |
| Types.EqIsEquivalence | src/utils/typedefs/types.rs:38-56 | equality is reflexive, symmetric and transitive |
| Types.HashAgreesWithEq | src/utils/typedefs/types.rs:38-62 | two values are equal exactly when the hasher is fed the same text, so equal values hash equally under any hasher |
| Types.EqIgnoresCase | src/utils/typedefs/types.rs:38-42 | a value equals its lower-cased form, yet converts back to its original text |
| Types.MixedCaseExample | src/utils/typedefs/types.rs:32-42 | "ChEBI" equals "chebi" but displays as "ChEBI" |
| Types.Borrow | src/utils/typedefs/types.rs:70-74 | the borrowed text is the original text, the same as `into()` gives |
| Types.BorrowKey | src/utils/typedefs/types.rs:58-74 | the corrected borrowed key is exactly the text the hasher is fed |
| Types.BorrowDisagreesWithEqAndHash | src/utils/typedefs/types.rs:58-74 | equal values "ChEBI" and "chebi" borrow as different texts, and the borrowed text differs from what the hasher is fed |
| Types.BorrowKeyAgreesWithEqAndHash | src/utils/typedefs/types.rs:58-74 | a lower-cased borrowed key compares exactly like equality and is what the hasher is fed |
| Errors.Display | src/errors.rs:35-46 | each variant's text: "IO error: ", "Invalid TaxID: ", "Password error: " and "Database error: " followed verbatim by the carried message or tax id, "Not implemented" and "Unauthorised"; a carried text always ends the display, right after ": " |
| Errors.FromIo | src/errors.rs:31 | an io error becomes the Io variant: `source()` is that error and the display is "IO error: " plus its text |
| Errors.FromBcrypt | src/errors.rs:32 | a bcrypt error becomes Password: `source()` is that error and the display is "Password error: " plus its text |
| Errors.FromDiesel | src/errors.rs:33 | a diesel error becomes DatabaseError: `source()` is that error and the display is "Database error: " plus its text |
| Errors.Source | src/errors.rs:48-59 | `source()` is absent exactly for NotImplemented, InvalidTaxID and Unauthorised |
| Errors.DisplayDeterminesKind | src/errors.rs:35-46 | errors of different variants never have the same display text |
| Errors.RespondTo | src/errors.rs:61-88 | never fails; status 500 exactly for DatabaseError, InvalidTaxID, Io and NotImplemented, with body "Server error: " plus the display text; status 401 exactly for Password and Unauthorised, with the bare display text; content type `text/plain; charset=utf-8`; declared size is the body's UTF-8 length |
| Errors.StatusReadableFromBody | src/errors.rs:63-86 | a response is a 500 exactly when its body starts with "Server error: " |
| Errors.ResponseSizeCountsBytes | src/errors.rs:73-83 | the declared size is at least the body's character count, and equals it exactly when the body is ASCII |
| UserCommon.ReadStringFrom | src/user/common.rs:33-62 | a reader that finishes has consumed at least one line and no more than there are |
| UserCommon.ReadStringLine | src/user/common.rs:44-60 | one pass of the loop consumes its line and stays within the input |
| UserCommon.ReadStringOutcome | src/user/common.rs:33-62 | a Some result is non-empty: the trimmed line, or the old value for a blank line; None only for an optional field given a blank line and no old value; an optional field reads exactly one line; a required field skips exactly the blank lines without an old value |
| UserCommon.BlankLineKeepsOld | src/user/common.rs:49-52 | a whitespace-only line keeps a non-empty old value and consumes one line |
| UserCommon.ReadStringValue | src/user/common.rs:33-62 | the loop returns what the reader specification gives |
| UserCommon.ReadPasswordFrom | src/user/common.rs:64-83 | a finished read consumed at least one terminal line and stays within the input |
| UserCommon.ReadPasswordOutcome | src/user/common.rs:68-80 | the result is an empty entry, or a non-empty entry immediately repeated; every earlier attempt was a mismatched pair |
| UserCommon.ReadPassword | src/user/common.rs:64-83 | the loop returns what the password specification gives |
| UserCommon.ReadBoolFrom | src/user/common.rs:85-109 | a finished read consumed at least one line and stays within the input |
| UserCommon.ReadBoolLine | src/user/common.rs:88-107 | one pass of the loop consumes its line and stays within the input |
| UserCommon.ParseBoolLine | src/user/common.rs:92-106 | the token table on the lower-cased, trimmed line (a definition; its promises are stated by UserCommon.BlankLineKeepsFlag, UserCommon.BoolTokenExamples and UserCommon.ReadBoolOutcome) |
| UserCommon.BlankLineKeepsFlag | src/user/common.rs:92-103 | a line keeps the old value exactly when it is blank |
| UserCommon.ReadBoolOutcome | src/user/common.rs:87-107 | unrecognised lines are skipped; the first recognised line decides: true for t/true/y/yes, false for f/false/n/no, the old value for a blank line, after lower-casing and trimming |
| UserCommon.BoolTokenExamples | src/user/common.rs:92-104 | " Yes\n" is yes, "N" is no, "\n" keeps the old value, "maybe" is re-prompted |
| UserCommon.ReadBool | src/user/common.rs:85-109 | the loop returns what the flag specification gives |
| UserCommon.NewUser.constructor | src/user/common.rs:5-14 | the record holds exactly the given fields |
| UserCommon.NewUser.Store | src/user/common.rs:16-29 | the record afterwards holds exactly the given fields |
| UserCommon.DefaultCallName | src/user/common.rs:19-23 | with no call name and a name, the default is the name's text before its first space; otherwise the call name is unchanged |
| UserCommon.EditTextsFrom | src/user/common.rs:17-25 | reading the text fields leaves the three flags as they were |
| UserCommon.EditFlagsFrom | src/user/common.rs:27-29 | reading the flags leaves the four text fields as they were |
| UserCommon.EditFrom | src/user/common.rs:16-31 | a finished round has consumed lines from both inputs and stays within them |
| UserCommon.EditTextsOutcome | src/user/common.rs:17-25 | after the text part the email is Some non-empty text and every other text field is absent or non-empty |
| UserCommon.EditOutcome | src/user/common.rs:16-31 | after a round the email is Some non-empty text, the other text fields are absent or non-empty, and the password is empty or confirmed by a matching repeat |
| UserCommon.EditTexts | src/user/common.rs:17-25 | reads the text fields as the specification says |
| UserCommon.EditFlags | src/user/common.rs:27-29 | reads the flags as the specification says |
| UserCommon.InteractiveUserEdit | src/user/common.rs:16-31 | a finished round leaves the record and the returned password as the specification says; None when an input runs out |
| User.RequiredReadOutcome | src/user.rs:140-162 | the older reader always yields Some non-empty text: the trimmed line, or the old value for a blank line |
| User.EditTextsFrom | src/user.rs:128-132 | reading the text fields leaves the three flags as they were |
| User.EditFrom | src/user.rs:127-138 | a finished round has consumed lines from both inputs and stays within them |
| User.EditTextsOutcome | src/user.rs:128-132 | after the text part all four text fields are Some non-empty text |
| User.CallNameNotDerived | src/user.rs:130-131 | with no old call name, the call name that comes back is the trimmed last line read at the call-name prompt (after the email and name prompts), not a piece of the name |
| User.EditOutcome | src/user.rs:127-138 | after a round all four text fields are Some non-empty text, and the password is empty or confirmed by a matching repeat |
| User.EditTexts | src/user.rs:128-132 | reads the text fields as the specification says |
| User.InteractiveUserEdit | src/user.rs:127-138 | a finished round leaves the record and the returned password as the specification says; None when an input runs out |
| User.InitialData | src/user.rs:84-92 | the starting record carries the options' fields unchanged |
| User.InitialPassword | src/user.rs:93 | the starting password is the option, or empty |
| User.Complete | src/user.rs:95-98 | a complete record has an email to unwrap (user.rs:109) and a non-empty password |
| User.EditUntilComplete | src/user.rs:96-102 | the retry loop stays within both inputs and consumes lines from each |
| User.EditUntilCompleteOutcome | src/user.rs:96-102 | the loop stops only on a complete round: email and name set and non-empty, and a non-empty password confirmed by a matching repeat |
| User.UserAddAsWritten | src/user.rs:82-105 | as written, the password handed to hashing is always the initial one (the option, or empty), while the record has an email and a name |
| User.UserAddSpec | src/user.rs:82-105 | as intended, the submission is complete, and it exists in the same cases and with the same record as in the code as written |
| User.UserAddOutcome | src/user.rs:93-105 | with complete options nothing is asked; otherwise the submission has a non-empty email and name and a password that was typed on the terminal |
| User.ShadowedPasswordIsEmpty | src/user.rs:93-105 | without a password option, the code as written always hashes the empty password, although the corrected behaviour hashes a non-empty one |
| User.ShadowedPasswordExample | src/user.rs:93-105 | a concrete session where the code as written hashes "" and the corrected behaviour hashes "secret" |
| User.UserAdd | src/user.rs:82-105 | the corrected `user_add`, from the record to the password handed to hashing, returns the corrected specification's submission |

## Left out

- Taxonomy: the `taxa` table, `NcbiTaxEntry` and `InvalidTaxID` exist, but no lookup, cache or merged-id code is in the source, so there is nothing to model beyond the error variant.
- Diesel persistence (the `models/db` files, `models/db.rs`, the `table!` macros in `schema.rs`): queries and the optimistic version filter live in the ORM and the database.
- `ToSql`/`FromSql` for `CiString` (`utils/typedefs/types.rs:113-153`): byte writes and UTF-8 decoding through diesel.
- `AsRef<str>` and `Deref` for `CiString` (`utils/typedefs/types.rs:64-68, 76-82`): they return the original text, exactly like `Types.Borrow`.
- The Rocket web layer (`web/` and `rocket()`/`main` in `main.rs`): async handlers, cookies and connection pools.
- CLI dispatch and printing (`token.rs`, `repo.rs`, `req.rs` and `req/`, `submission.rs`, `user/add.rs`, `user/edit.rs`, `user/list.rs`, `user/delete.rs`): plumbing around database calls and `process::exit`.
- Crypto, randomness and time: `generate_uid` and `generate_password` (`utils.rs:7-13`) are stubs that always return `NotImplemented`.
- User.UserAdd: as written, `user_add` panics at `user.rs:83`, because `generate_uid` always fails. The model starts after the uid is generated. It ends with the record and the password handed to `generate_password`. Hashing, building the `Submitter` (version 0) and the insert are not modelled.
- serde-derived structs and `#[serde(rename)]` enums in `models/schema/*.rs` and `models/legacy_schema/*.rs`: their behaviour is generated by the library.
- Genes.DeserializeJson: only models how serde_json dispatches an integer (non-negative to `visit_u64`, negative to `visit_i64`), as the comment at `genes.rs:116` describes. An integer beyond both 64-bit ranges goes to the default `visit_f64`; its error is modelled by the start of its message only ("invalid type: floating point"), without the printed number and the expected-value text. Other formats are not modelled.
- `mol_mass: Option<f64>` (`models/schema/compound.rs:28`): it is floating point.
- `utils::num_as_string`: not part of this model.
- Wrapped library errors (`io::Error`, `BcryptError`, diesel errors) are represented by their display text only.
- Errors.RespondTo: only the status, content type, declared size and body of the Rocket response are modelled; the request argument is unused in the source.
- Prompt printing, stdout flushing and terminal echo suppression in the readers are not modelled; only the lines consumed and the values produced are.
- The real `read_line` returns an empty line at end of input, and a failed read is unwrapped, which panics. The model instead reports `OutOfInput` when a reader runs out of lines. The outcome lemmas are stated for rounds that finish.
- UserCommon.InteractiveUserEdit: when an input runs out part-way, the model leaves the record's state unstated. The original assigns each field as it is read.
- User.InteractiveUserEdit: when an input runs out part-way, the model leaves the record's state unstated. The original assigns each field as it is read (`user.rs:128-136`).
- Text.Lower: `to_lowercase` is modelled on ASCII letters only. Other characters, including the non-ASCII letters Unicode would lower-case, are kept as they are. So Types.Eq, Types.Hash and the yes/no tokens of UserCommon.ParseBoolLine are case-insensitive on ASCII only.
- Types.Eq, Types.HashInput: the equal-length facts hold only for the ASCII lower-casing of the model. Rust's `to_lowercase` can change the length: "İ" (U+0130) lower-cases to "i" followed by U+0307, so in the program `CiString::from("İ")` equals `CiString::from("i\u{307}")` although the lengths differ.
- Passwords are compared as entered. `rpassword` strips only the line ending, which the input lines do not carry.
- `read_password` and `read_bool` in `user.rs` (`user.rs:164-209`) repeat those of `user/common.rs` word for word. Its private `NewUser` (`user.rs:71-80`) has the same fields as the public one of `user/common.rs:5-14`. The model uses the `UserCommon` definitions for both. `read_string_value` in `user.rs:140-162` is the required (`optional = false`) path of the one in `user/common.rs`.

## Findings

| source | as written | input that shows it | evidently intended | confidence | as-written member | corrected member |
|---|---|---|---|---|---|---|
| src/user.rs:97 | `let password = interactive_user_edit(...)` declares a new `password` inside the loop. It shadows the outer one, so `user.rs:105` hashes the initial password: the `-p` option, or "" when none was given. | options with email "a@b" and name "Ann" and no password; standard input "", "", "Ann", "Uni", "", "", ""; terminal "secret", "secret". The loop ends because "secret" was confirmed, but "" is hashed (User.ShadowedPasswordExample). | hash the password confirmed in the round that ended the loop | high; not executed | User.UserAddAsWritten | User.UserAddSpec |
| src/utils/typedefs/types.rs:70-74 | `Borrow<str>` returns the original text, while equality and `Hash` use the lower-cased text (`types.rs:38-42, 58-62`). This breaks Rust's rule that a borrowed form must compare and hash like the owned value. | `CiString::from("ChEBI")` and `CiString::from("chebi")` are equal. They borrow as "ChEBI" and "chebi", and the hasher is fed "chebi" for the first (Types.BorrowDisagreesWithEqAndHash). | a borrowed key that is the lower-cased text | medium; not executed | Types.Borrow | Types.BorrowKey |
