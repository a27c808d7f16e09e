/** The Lambda's effects: query a bucket's default encryption, apply AES256 when
    there is none, and email the routed recipients. S3 and the mailer are oracles:
    each call's outcome is an input, and the calls made are recorded, in order, in
    a trace that every property below is about. */
module S3Governance {
  import opened Wrappers
  import opened Strings
  import opened Routing

  /** The error code in the text of the ClientError that get_bucket_encryption
      raises for a bucket without default encryption. */
  const NotFoundCode := "ServerSideEncryptionConfigurationNotFoundError"

  /** `{'ApplyServerSideEncryptionByDefault': {'SSEAlgorithm': a}}` */
  datatype Rule = ApplyServerSideEncryptionByDefault(sseAlgorithm: string)

  /** `ServerSideEncryptionConfiguration={'Rules': rules}` */
  datatype EncryptionConfiguration = EncryptionConfiguration(rules: seq<Rule>)

  /** The configuration put_bucket_encryption is always called with. */
  const DefaultEncryption := EncryptionConfiguration([ApplyServerSideEncryptionByDefault("AES256")])

  /** What an S3 call did as far as the handler can tell: it returned, or it raised
      botocore's ClientError, `message` being the error's text `str(error)`. */
  datatype ApiResult = Succeeded | ClientError(message: string)

  /** The S3 client, scoped to the event's account and region. */
  datatype Client = Client(account: string, region: string)

  /** Which of the three email texts a notification carries. */
  datatype Notice = QueryFailed | Encrypted | EncryptionFailed

  /** One call to the outside world. */
  datatype Call =
    | GetBucketEncryption(client: Client, bucket: string)
    | PutBucketEncryption(client: Client, bucket: string, configuration: EncryptionConfiguration)
    | NotifyEmail(notice: Notice, route: Route)

  /** The fields of the bucket event that the handler reads. */
  datatype Event = Event(bucketName: string, account: string, arn: string, awsRegion: string)

  /** How an invocation ends: which of the two final log lines it writes, if any
      (the handler itself returns None). */
  datatype Completion = LeftAlone | Remediated | RemediationFailed

  /** The calls of one invocation, as observed by S3 and the mailer. */
  class Cloud {
    ghost var calls: seq<Call>
  }

  // ---------------------------------------------------------------------------
  // Specification functions

  /** encryption_enabled's answer for a query outcome: False exactly when the query
      raised a ClientError whose text mentions the not-found code. */
  function ReportsEncrypted(query: ApiResult): (enabled: bool)
    ensures !enabled <==> query.ClientError? && exists k: nat :: OccursAt(query.message, NotFoundCode, k)
  {
    match query
    case Succeeded => true
    case ClientError(message) => !Contains(message, NotFoundCode)
  }

  /** The calls encryption_enabled makes. */
  function InspectionCalls(s3: Client, bucketName: string, query: ApiResult, route: Route): seq<Call>
  {
    [GetBucketEncryption(s3, bucketName)] +
    (if query.ClientError? && ReportsEncrypted(query) then [NotifyEmail(QueryFailed, route)] else [])
  }

  /** The calls enable_encryption makes. */
  function RemediationCalls(s3: Client, bucketName: string, put: ApiResult, route: Route): seq<Call>
  {
    [ PutBucketEncryption(s3, bucketName, DefaultEncryption),
      NotifyEmail(if put.Succeeded? then Encrypted else EncryptionFailed, route) ]
  }

  /** The calls lambda_handler makes once the client and admin address are known. */
  function InvocationCalls(event: Event, admin: Option<string>, query: ApiResult, put: ApiResult): seq<Call>
  {
    var s3 := Client(event.account, event.awsRegion);
    var route := ResolveRoute(event.arn, admin);
    InspectionCalls(s3, event.bucketName, query, route) +
    (if ReportsEncrypted(query) then [] else RemediationCalls(s3, event.bucketName, put, route))
  }

  function CompletionOf(query: ApiResult, put: ApiResult): Completion
  {
    if ReportsEncrypted(query) then LeftAlone
    else if put.Succeeded? then Remediated
    else RemediationFailed
  }

  function PutCount(calls: seq<Call>): nat
  {
    if calls == [] then 0
    else (if calls[0].PutBucketEncryption? then 1 else 0) + PutCount(calls[1..])
  }

  function NotifyCount(calls: seq<Call>): nat
  {
    if calls == [] then 0
    else (if calls[0].NotifyEmail? then 1 else 0) + NotifyCount(calls[1..])
  }

  // ---------------------------------------------------------------------------
  // The Lambda

  /** encryption_enabled: query the bucket's encryption. A successful query means
      encrypted; a not-found ClientError means not encrypted; any other ClientError
      is reported by email and then also treated as encrypted. */
  method EncryptionEnabled(bucketName: string, s3: Client, route: Route, query: ApiResult, cloud: Cloud)
    returns (enabled: bool)
    modifies cloud
    ensures enabled == ReportsEncrypted(query)
    ensures cloud.calls == old(cloud.calls) + InspectionCalls(s3, bucketName, query, route)
  {
    cloud.calls := cloud.calls + [GetBucketEncryption(s3, bucketName)];
    match query {
      case Succeeded =>
        enabled := true;
      case ClientError(message) =>
        if Contains(message, NotFoundCode) {
          enabled := false;
        } else {
          cloud.calls := cloud.calls + [NotifyEmail(QueryFailed, route)];
          enabled := true;
        }
    }
  }

  /** enable_encryption: put the AES256 default, then email the outcome either way.
      The result is True after a successful put and None after a failed one.
      `delivered`, what the mailer answers, only chooses a debug log line. */
  method EnableEncryption(bucketName: string, s3: Client, route: Route, put: ApiResult, delivered: bool, cloud: Cloud)
    returns (status: Option<bool>)
    modifies cloud
    ensures status == if put.Succeeded? then Some(true) else None
    ensures cloud.calls == old(cloud.calls) + RemediationCalls(s3, bucketName, put, route)
  {
    cloud.calls := cloud.calls + [PutBucketEncryption(s3, bucketName, DefaultEncryption)];
    match put {
      case Succeeded =>
        cloud.calls := cloud.calls + [NotifyEmail(Encrypted, route)];
        status := Some(true);
      case ClientError(_) =>
        cloud.calls := cloud.calls + [NotifyEmail(EncryptionFailed, route)];
        status := None;
    }
  }

  /** lambda_handler, from the point where the client exists and the admin address
      has been looked up: route once, inspect, and remediate only a bucket reported
      as not encrypted. */
  method LambdaHandler(event: Event, admin: Option<string>, query: ApiResult, put: ApiResult, delivered: bool, cloud: Cloud)
    returns (completion: Completion)
    modifies cloud
    ensures cloud.calls == old(cloud.calls) + InvocationCalls(event, admin, query, put)
    ensures completion == CompletionOf(query, put)
  {
    var s3 := Client(event.account, event.awsRegion);
    var route := ResolveRoute(event.arn, admin);
    var enabled := EncryptionEnabled(event.bucketName, s3, route, query, cloud);
    assert cloud.calls == old(cloud.calls) + InspectionCalls(s3, event.bucketName, query, route);
    if !enabled {
      var status := EnableEncryption(event.bucketName, s3, route, put, delivered, cloud);
      assert cloud.calls == old(cloud.calls) + InspectionCalls(s3, event.bucketName, query, route)
        + RemediationCalls(s3, event.bucketName, put, route);
      // `if encryption_status:`, where None is false
      if status == Some(true) {
        completion := Remediated;
      } else {
        completion := RemediationFailed;
      }
    } else {
      completion := LeftAlone;
    }
  }

  // ---------------------------------------------------------------------------
  // Properties of the trace

  lemma {:induction false} CountsAppend(a: seq<Call>, b: seq<Call>)
    ensures PutCount(a + b) == PutCount(a) + PutCount(b)
    ensures NotifyCount(a + b) == NotifyCount(a) + NotifyCount(b)
    decreases |a|
  {
    if a == [] {
      assert a + b == b;
    } else {
      assert (a + b)[1..] == a[1..] + b;
      CountsAppend(a[1..], b);
    }
  }

  /** Whatever the put's outcome, enable_encryption issues exactly one put, with the
      AES256 default, and sends exactly one notification, saying how the put went. */
  lemma RemediationOnePutOneNotice(s3: Client, bucketName: string, put: ApiResult, route: Route)
    ensures var calls := RemediationCalls(s3, bucketName, put, route);
      && PutCount(calls) == 1 && NotifyCount(calls) == 1
      && calls[0] == PutBucketEncryption(s3, bucketName, DefaultEncryption)
      && calls[1].notice == (if put.Succeeded? then Encrypted else EncryptionFailed)
  {
    var calls := RemediationCalls(s3, bucketName, put, route);
    CountsAppend([calls[0]], [calls[1]]);
    assert calls == [calls[0]] + [calls[1]];
  }

  /** The handler issues a put exactly when encryption_enabled answered False, and
      every put carries the AES256 default for the event's bucket, account and region. */
  lemma PutOnlyWhenNotEncrypted(event: Event, admin: Option<string>, query: ApiResult, put: ApiResult)
    ensures var calls := InvocationCalls(event, admin, query, put);
      && PutCount(calls) == (if ReportsEncrypted(query) then 0 else 1)
      && forall i :: 0 <= i < |calls| && calls[i].PutBucketEncryption? ==>
           calls[i] == PutBucketEncryption(Client(event.account, event.awsRegion), event.bucketName, DefaultEncryption)
  {
    var s3 := Client(event.account, event.awsRegion);
    var route := ResolveRoute(event.arn, admin);
    var inspection := InspectionCalls(s3, event.bucketName, query, route);
    var rest := if ReportsEncrypted(query) then [] else RemediationCalls(s3, event.bucketName, put, route);
    CountsAppend([GetBucketEncryption(s3, event.bucketName)], inspection[1..]);
    assert inspection == [GetBucketEncryption(s3, event.bucketName)] + inspection[1..];
    CountsAppend(inspection, rest);
    if !ReportsEncrypted(query) {
      RemediationOnePutOneNotice(s3, event.bucketName, put, route);
    }
  }

  /** One invocation sends no email when the query succeeds, and exactly one
      otherwise: the anomaly report, or the outcome of the remediation. */
  lemma NotificationCount(event: Event, admin: Option<string>, query: ApiResult, put: ApiResult)
    ensures NotifyCount(InvocationCalls(event, admin, query, put)) == if query.Succeeded? then 0 else 1
  {
    var s3 := Client(event.account, event.awsRegion);
    var route := ResolveRoute(event.arn, admin);
    var inspection := InspectionCalls(s3, event.bucketName, query, route);
    var rest := if ReportsEncrypted(query) then [] else RemediationCalls(s3, event.bucketName, put, route);
    CountsAppend([GetBucketEncryption(s3, event.bucketName)], inspection[1..]);
    assert inspection == [GetBucketEncryption(s3, event.bucketName)] + inspection[1..];
    CountsAppend(inspection, rest);
    if !ReportsEncrypted(query) {
      RemediationOnePutOneNotice(s3, event.bucketName, put, route);
    }
  }

  /** Every notification of one invocation goes to the same route, the one computed
      from the actor's ARN and the admin address before any S3 call. */
  lemma OneRoutePerInvocation(event: Event, admin: Option<string>, query: ApiResult, put: ApiResult)
    ensures var calls := InvocationCalls(event, admin, query, put);
      forall i :: 0 <= i < |calls| && calls[i].NotifyEmail? ==>
        calls[i].route == ResolveRoute(event.arn, admin)
  {
  }

  /** The query comes first; an already encrypted bucket sees that query and nothing
      else, and no bucket reported as encrypted (even through an anomalous error)
      is changed or announced as newly encrypted. */
  lemma EncryptedBucketUntouched(event: Event, admin: Option<string>, query: ApiResult, put: ApiResult)
    ensures var calls := InvocationCalls(event, admin, query, put);
      && calls[0] == GetBucketEncryption(Client(event.account, event.awsRegion), event.bucketName)
      && (query.Succeeded? ==> calls == [calls[0]])
      && (ReportsEncrypted(query) ==>
            forall i :: 0 <= i < |calls| ==>
              !calls[i].PutBucketEncryption? && !(calls[i].NotifyEmail? && calls[i].notice == Encrypted))
  {
  }

  /** A not-found query leads to the put and one email about its outcome. */
  lemma NotFoundInvocation(event: Event, admin: Option<string>, message: string, put: ApiResult)
    requires Contains(message, NotFoundCode)
    ensures var s3 := Client(event.account, event.awsRegion);
      InvocationCalls(event, admin, ClientError(message), put) ==
        [ GetBucketEncryption(s3, event.bucketName),
          PutBucketEncryption(s3, event.bucketName, DefaultEncryption),
          NotifyEmail(if put.Succeeded? then Encrypted else EncryptionFailed, ResolveRoute(event.arn, admin)) ]
  {
  }

  /** An unencrypted bucket whose actor is an email address: one put with the
      AES256 default, then one success email to the actor, with the admin (if any)
      copied. */
  lemma ScenarioEmailActor(admin: Option<string>, bucket: string)
    ensures var arn := "arn:aws:iam::111111111111:user" + "/" + "alice@example.com";
      var event := Event(bucket, "111111111111", arn, "us-east-1");
      var s3 := Client("111111111111", "us-east-1");
      InvocationCalls(event, admin, ClientError(NotFoundCode), Succeeded) ==
        [ GetBucketEncryption(s3, bucket),
          PutBucketEncryption(s3, bucket, DefaultEncryption),
          NotifyEmail(Encrypted, Route(Some(["alice@example.com"]), AdminList(admin))) ]
  {
    var arn := "arn:aws:iam::111111111111:user" + "/" + "alice@example.com";
    ExampleAddress();
    EmailActorRoute("arn:aws:iam::111111111111:user", "alice@example.com", admin);
    assert OccursAt(NotFoundCode, NotFoundCode, 0);
    NotFoundInvocation(Event(bucket, "111111111111", arn, "us-east-1"), admin, NotFoundCode, Succeeded);
  }

  /** An unencrypted bucket changed by an assumed role: the success email goes to
      the admin alone, with no cc. */
  lemma ScenarioRoleActor(bucket: string)
    ensures var arn := "arn:aws:sts::222222222222:assumed-role/DeployRole" + "/" + "session123";
      var event := Event(bucket, "222222222222", arn, "us-east-1");
      var s3 := Client("222222222222", "us-east-1");
      InvocationCalls(event, Some("admin@corp.com"), ClientError(NotFoundCode), Succeeded) ==
        [ GetBucketEncryption(s3, bucket),
          PutBucketEncryption(s3, bucket, DefaultEncryption),
          NotifyEmail(Encrypted, Route(Some(["admin@corp.com"]), None)) ]
  {
    var arn := "arn:aws:sts::222222222222:assumed-role/DeployRole" + "/" + "session123";
    OtherActorRoute("arn:aws:sts::222222222222:assumed-role/DeployRole", "session123", Some("admin@corp.com"));
    assert OccursAt(NotFoundCode, NotFoundCode, 0);
    NotFoundInvocation(Event(bucket, "222222222222", arn, "us-east-1"), Some("admin@corp.com"), NotFoundCode, Succeeded);
  }

  /** A query failing for another reason: one failure email and no put, even though
      the bucket's encryption is unknown. */
  lemma ScenarioQueryAnomaly(event: Event, admin: Option<string>, put: ApiResult)
    ensures var s3 := Client(event.account, event.awsRegion);
      InvocationCalls(event, admin, ClientError("An error occurred (AccessDenied)"), put) ==
        [ GetBucketEncryption(s3, event.bucketName),
          NotifyEmail(QueryFailed, ResolveRoute(event.arn, admin)) ]
  {
    assert |"An error occurred (AccessDenied)"| < |NotFoundCode|;
  }
}
