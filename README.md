# S3 default-encryption remediator, modelled in Dafny

The system is a single AWS Lambda, `s3_governance.py`. It runs when a bucket is
created or changed. It asks S3 whether the bucket has default server-side
encryption. If S3 answers that no configuration exists, it applies the AES256
default and sends one email saying whether that worked. If the query fails with any
other error, it sends one email about the failed check and changes nothing. If the
query succeeds, it sends nothing. An email goes to the actor who changed the bucket
when the actor's identity is an email address, with the account's admin copied.
Otherwise it goes to the admin alone, and the actor is never emailed.

This project models the decision core under the boto3 and mailer calls:

- `strings.dfy` (`Strings`): the Python string operations the handler relies on.
  These are `str.split` with a one-character separator, `[-1]` of the result, and
  the substring test `pattern in text`. The handler does not use `sep.join`;
  `Join` is there only to state the round trip of `split`.
- `email_pattern.dfy` (`EmailPattern`): the email regular expression of
  `lambda_handler`.
  - `Run`/`Accepts` is a character-level finite automaton.
  - `IsAddress` restates the structure the pattern describes (local-part segments,
    `@`, domain labels, `.` and a 2–4 letter top-level domain).
  - `AcceptsIffAddress` proves the two agree on every string.
  - `MatchesEmailPattern` adds Python's `$` rule: `$` also matches before one final
    newline.
- `routing.dfy` (`Routing`): the actor identity (`arn.split('/')[-1]`) and the
  (recipient, cc) pair that every notification of an invocation uses.
- `s3_governance.dfy` (`S3Governance`): `encryption_enabled`, `enable_encryption`
  and the dispatch of `lambda_handler`, as methods.
  - S3 and the mailer are oracles. Each S3 call's outcome is an input: it
    succeeded, or it raised a `ClientError` with some text.
  - Class `Cloud` holds a ghost trace of the calls made: get, put, notify. A notify
    call records which message it carried and the (recipient, cc) lists it used.
  - Each method is proved to append exactly what a specification function says.
  - The lemmas state what the source promises about that trace.

Behaviours of the code worth stating explicitly:

- The email test is case-sensitive. No `re.IGNORECASE` is passed, so `UppercaseRejected`
  holds.
- When the actor's identity is the admin's own address, the admin is both recipient
  and cc. `AdminMayBeRepeated` proves this for every such identity.
- When the actor's identity has no `@` and the account has no admin address, both
  lists are `None`. `RouteMayBeEmpty` proves this for every such identity.
- The email local part admits `_`, `-` and digits, and the domain admits digits and
  `-` but no `_`.

## Model

| member | source | states |
|---|---|---|
| Strings.Split | s3_governance.py:64 | `split` always yields at least one field and no field contains the separator |
| Strings.SplitThenJoin | s3_governance.py:64 | joining the fields of a split with the separator gives back the original string |
| Strings.JoinThenSplit | s3_governance.py:64 | splitting the join of separator-free fields gives back those fields (the other direction of the round trip) |
| Strings.LastFieldIsTail | s3_governance.py:64 | `s.split(sep)[-1]` is a suffix of `s` with no separator, preceded by a separator unless it is all of `s` |
| Strings.LastFieldAfter | s3_governance.py:64 | whatever precedes the last separator, `split(sep)[-1]` is exactly the text after it |
| Strings.LastFieldEmpty | s3_governance.py:64 | `s.split(sep)[-1]` is empty exactly when `s` is empty or ends in the separator |
| Strings.Contains | s3_governance.py:25 | Python's `pattern in text` holds exactly when the pattern occurs at some index of the text |
| Routing.ActorIdentity | s3_governance.py:64 | the identity is the suffix of the ARN after its last `/`, the whole ARN if there is none, and never contains `/` |
| Routing.ActorIdentityAfterSlash | s3_governance.py:64 | conversely, an ARN of the form prefix + `/` + id with no `/` in id has identity id |
| EmailPattern.RunIsExpected | s3_governance.py:65 | after any input, the automaton's state is the one its declarative reading of the input prescribes (local part so far, or domain so far with its current label) |
| EmailPattern.AcceptsIffAddress | s3_governance.py:65 | the automaton accepts exactly the strings of the pattern's language, in both directions |
| EmailPattern.MatchesIffAddress | s3_governance.py:65 | `re.match` succeeds exactly on a string of the language, or on one followed by a single newline (the `$` rule) |
| EmailPattern.AddressShape | s3_governance.py:65 | an accepted string has exactly one `@`, only `[_a-z0-9-.]` besides it, no `_` after it, no leading, trailing or doubled dots in either part, and ends in `.` plus 2–4 lower-case letters |
| EmailPattern.UppercaseRejected | s3_governance.py:65 | any upper-case letter makes the email test fail |
| EmailPattern.NoAtRejected | s3_governance.py:65 | a string without `@`, such as a role-session name, never passes the email test |
| Routing.ResolveRoute | s3_governance.py:60-69 | email-shaped identity: recipient `[identity]`, cc `[admin]` or None; otherwise recipient `[admin]` or None and cc None even when an admin exists |
| Routing.EmailActorRoute | s3_governance.py:64-66 | an ARN ending in `/` + an email-shaped name routes to that name, with the admin (if any) as cc |
| Routing.OtherActorRoute | s3_governance.py:64-69 | an ARN ending in `/` + a name without `@` (a role session, a service) routes to the admin alone (or None) and copies nobody, even when an admin exists |
| Routing.RouteParties | s3_governance.py:60-69 | every list holds exactly one address, the identity or the admin; a known admin is always addressed; cc is present iff the actor is email-shaped and an admin exists; nobody is addressed iff the actor is not email-shaped and there is no admin |
| Routing.AdminMayBeRepeated | s3_governance.py:60-66 | for every ARN ending in `/` + an email-shaped identity that equals the admin address, the route lists that address as both recipient and cc |
| Routing.RouteMayBeEmpty | s3_governance.py:60-69 | for every ARN ending in `/` + an identity without `@`, in an account without an admin address, both lists are None |
| S3Governance.ReportsEncrypted | s3_governance.py:20-32 | encryption_enabled answers False exactly when the query raised a ClientError whose text contains `ServerSideEncryptionConfigurationNotFoundError`, and True on success and on every other ClientError |
| S3Governance.EncryptionEnabled | s3_governance.py:18-32 | the method returns that answer and appends one get followed by one failure email on the other-ClientError path only |
| S3Governance.EnableEncryption | s3_governance.py:35-48 | the method appends one put with the AES256 default and then one email (success or failure), and returns True (`Some(true)`) on success and None on failure |
| S3Governance.LambdaHandler | s3_governance.py:71-76 | the handler routes once, inspects, remediates only when encryption_enabled answered False, and ends on the success log, the failure log, or neither |
| S3Governance.RemediationOnePutOneNotice | s3_governance.py:37-48 | enable_encryption issues exactly one put, with a single AES256 rule, and exactly one notification saying how the put went |
| S3Governance.PutOnlyWhenNotEncrypted | s3_governance.py:71-72 | an invocation issues one put when encryption_enabled answered False and none otherwise, and every put carries the AES256 default for the event's bucket, account and region |
| S3Governance.NotificationCount | s3_governance.py:21-48 | an invocation sends no email when the query succeeds and exactly one otherwise |
| S3Governance.OneRoutePerInvocation | s3_governance.py:60-72 | every notification of an invocation uses the route computed from the ARN and the admin address |
| S3Governance.EncryptedBucketUntouched | s3_governance.py:20-32 | the query is the first call; a successful query is the only call; a bucket reported encrypted, including after an anomalous error, is never changed and never announced as newly encrypted |
| S3Governance.NotFoundInvocation | s3_governance.py:25-26 | a not-found query leads to get, then put, then one email about the put's outcome on the invocation's route |
| S3Governance.ScenarioEmailActor | s3_governance.py:64-72 | a user ARN ending in `alice@example.com` on an unencrypted bucket gives one AES256 put and one success email to the actor, with the admin copied |
| S3Governance.ScenarioRoleActor | s3_governance.py:64-72 | an assumed-role ARN on an unencrypted bucket gives one AES256 put and one success email to the admin alone, with no cc |
| S3Governance.ScenarioQueryAnomaly | s3_governance.py:27-32 | an access-denied query gives one failure email and no put |

## Left out

- `get_aws_client`, `get_account_admin_email` and `notify_email` come from
  `utils.common`, which is not part of this model. The client is reduced to its
  (account, region) scope. The admin address is an input. A notification is a
  recorded call.
- `notify_email` may raise inside `enable_encryption`'s `try`; if it raised a
  `ClientError` there, a second email would be attempted. This is not modelled:
  the mailer is taken to return a boolean.
- The mailer's boolean answer (`delivered` in `EnableEncryption`) only chooses a debug
  log line, so no contract mentions it.
- Exceptions from S3 other than botocore's `ClientError` propagate out of the
  handler and fail the invocation. This is not modelled; S3 outcomes are success
  or `ClientError`.
- Reading `ROLE_NAME` and the log level from the environment, and all logging.
  These are I/O that decides nothing.
- The `KeyError` of a malformed event, and the event-dictionary lookups. The
  handler's inputs are the parsed fields (`Event`). The session name only
  reaches `get_aws_client`.
- The wording of the three email messages and of the log lines. A notification
  records which of the three messages it is (`Notice`) and its lists. The
  handler's final log line is returned as a `Completion`, since `lambda_handler`
  itself returns None.
- Characters are compared by code point. The pattern's classes are ASCII ranges,
  and no Unicode handling beyond that is modelled.
