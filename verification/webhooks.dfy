/**
 * The webhook routes: the GitHub delivery endpoint, which verifies the
 * signature, maps a push to a registered repository and triggers a
 * pipeline for it, and the two routes that register and toggle webhooks.
 *
 * The HMAC-SHA256 is the parameter `hmac`, mapping the key and a text to
 * the lower-case hex digest; it is applied to the whole delivery body as
 * `JSON.stringify` prints it, carried in the delivery next to the fields
 * the handler reads. The trigger runs through
 * an HTTP call to the pipeline route; here it is `PipelineRoutes.Trigger`
 * with the manifest, the clock and the failing insert passed through.
 */
module Webhooks {
  import opened Wrappers
  import opened Text
  import opened Records
  import PipelineRoutes

  // ---------------------------------------------------------------------
  // Lookups
  // ---------------------------------------------------------------------

  /** The first position holding an element that satisfies `p` (the row `rows[0]` of a query without ORDER BY, read in id order). */
  function FirstWhere<T>(xs: seq<T>, p: T -> bool, from: nat): (r: Option<nat>)
    ensures r.Some? ==> from <= r.value < |xs| && p(xs[r.value])
    ensures r.Some? ==> forall i :: from <= i < r.value ==> !p(xs[i])
    ensures r.None? ==> forall i :: from <= i < |xs| ==> !p(xs[i])
    decreases |xs| - from
  {
    if from >= |xs| then None
    else if p(xs[from]) then Some(from)
    else FirstWhere(xs, p, from + 1)
  }

  /** `SELECT id FROM repositories WHERE git_url = url`, first row. */
  function FindRepo(s: Store, url: string): Option<nat> {
    FirstWhere(s.repos, (r: Option<Repo>) => r.Some? && r.value.gitUrl == url, 0)
  }

  predicate HasKey(w: Webhook, repoId: nat, provider: string) {
    w.repoId == repoId && w.provider == provider
  }

  /** `SELECT ... FROM webhooks WHERE repo_id = repoId AND provider = provider`, first row. */
  function FindWebhook(ws: seq<Webhook>, repoId: nat, provider: string): Option<nat> {
    FirstWhere(ws, (w: Webhook) => HasKey(w, repoId, provider), 0)
  }

  // ---------------------------------------------------------------------
  // POST /webhooks/github
  // ---------------------------------------------------------------------

  /** The fields of a push delivery the handler reads; an absent or empty field is "". */
  datatype PushBody = PushBody(
    cloneUrl: string,
    htmlUrl: string,
    ref: string,
    after: string,
    pusherName: string,
    pusherEmail: string)

  /**
   * A delivery: the `x-hub-signature-256` and `x-github-event` headers, the
   * whole parsed body re-serialised by `JSON.stringify` (every field, read
   * or not), and the fields of it that the handler reads.
   */
  datatype Delivery = Delivery(signature: string, event: string, serialized: string, body: PushBody)

  datatype GithubReply =
    | InvalidSignature                          // 401
    | RepoNotRegistered                         // 404
    | WebhookDisabled                           // 200
    | PipelineTriggered(pipelineId: Option<nat>) // 200; `None` when the trigger call answered with an error
    | Pong                                      // 200
    | NotProcessed                              // 200

  const SignaturePrefix: string := "sha256="
  const HeadsPrefix: string := "refs/heads/"
  const GithubProvider: string := "github"

  /**
   * The signature check: it runs only when both the configured secret and
   * the signature header are non-empty, and then the header must be the
   * prefixed hex digest of the serialised body.
   */
  predicate SignatureRejected(envSecret: string, d: Delivery, hmac: (string, string) -> string) {
    envSecret != "" && d.signature != "" && d.signature != SignaturePrefix + hmac(envSecret, d.serialized)
  }

  /** The repository URL of a push: `clone_url`, or `html_url` with `.git` appended when it is empty. */
  function PushGitUrl(b: PushBody): (r: string)
    ensures b.cloneUrl != "" ==> r == b.cloneUrl
    ensures b.cloneUrl == "" ==> r == b.htmlUrl + ".git"
  {
    OrElse(b.cloneUrl, b.htmlUrl + ".git")
  }

  /** `ref.replace("refs/heads/", "")`: the first occurrence only, wherever it is. */
  function Branch(ref: string): string {
    ReplaceFirst(ref, HeadsPrefix, "")
  }

  /** The trigger request body: branch, commit and `github:` + the pusher's name or e-mail. */
  function PushTriggerBody(b: PushBody): PipelineRoutes.TriggerBody {
    PipelineRoutes.TriggerBody(Branch(b.ref), b.after, "github:" + OrElse(b.pusherName, b.pusherEmail))
  }

  /** The webhook row exists for the repository and is switched off. */
  predicate Disabled(s: Store, repoId: nat) {
    var w := FindWebhook(s.webhooks, repoId, GithubProvider);
    w.Some? && !s.webhooks[w.value].isActive
  }

  function HandleGithub(s: Store, envSecret: string, d: Delivery, hmac: (string, string) -> string,
                        steps: seq<Step>, now: int, missingRow: Option<nat>): (r: (GithubReply, Store))
    ensures r.0 == InvalidSignature <==> SignatureRejected(envSecret, d, hmac)
    ensures !r.0.PipelineTriggered? ==> r.1 == s
    ensures r.0 == Pong <==> !SignatureRejected(envSecret, d, hmac) && d.event == "ping"
    ensures r.0 == NotProcessed <==>
      !SignatureRejected(envSecret, d, hmac) && d.event != "push" && d.event != "ping"
    ensures r.0 == RepoNotRegistered <==>
      !SignatureRejected(envSecret, d, hmac) && d.event == "push" && FindRepo(s, PushGitUrl(d.body)).None?
    ensures r.0 == WebhookDisabled <==>
      && !SignatureRejected(envSecret, d, hmac) && d.event == "push"
      && FindRepo(s, PushGitUrl(d.body)).Some? && Disabled(s, FindRepo(s, PushGitUrl(d.body)).value)
    ensures r.0.PipelineTriggered? ==>
      && d.event == "push"
      && var repoId := FindRepo(s, PushGitUrl(d.body)).value;
      && RepoUrl(s, repoId) == Some(PushGitUrl(d.body))
      && !Disabled(s, repoId)
      && var t := PipelineRoutes.Trigger(s, repoId, PushTriggerBody(d.body), steps, now, missingRow);
      && r.1 == t.1
      && (r.0.pipelineId.Some? <==> t.0.Created?)
      && (r.0.pipelineId.Some? ==> r.0.pipelineId.value == |s.pipelines|)
  {
    if SignatureRejected(envSecret, d, hmac) then (InvalidSignature, s)
    else if d.event == "push" then
      match FindRepo(s, PushGitUrl(d.body))
      case None => (RepoNotRegistered, s)
      case Some(repoId) =>
        if Disabled(s, repoId) then (WebhookDisabled, s)
        else
          var t := PipelineRoutes.Trigger(s, repoId, PushTriggerBody(d.body), steps, now, missingRow);
          var id := if t.0.Created? then Some(t.0.pipelineId) else None;
          (PipelineTriggered(id), t.1)
    else if d.event == "ping" then (Pong, s)
    else (NotProcessed, s)
  }

  /** A push to `refs/heads/<name>` runs on branch `<name>`. */
  lemma BranchOfHeadsRef(name: string)
    ensures Branch(HeadsPrefix + name) == name
  {
    var ref := HeadsPrefix + name;
    assert OccursAt(ref, HeadsPrefix, 0) by {
      assert ref[..|HeadsPrefix|] == HeadsPrefix;
    }
    assert ref[|HeadsPrefix|..] == name;
  }

  /** A ref that does not mention `refs/heads/` (a tag, say) is used as the branch name unchanged. */
  lemma BranchOfOtherRef(ref: string)
    requires forall i :: !OccursAt(ref, HeadsPrefix, i)
    ensures Branch(ref) == ref
  {
  }

  /**
   * A push to `refs/heads/<name>` of a registered repository whose webhook
   * is not disabled creates a pipeline for that repository on `<name>`
   * (on `main` when the name is empty), credited to the pusher.
   */
  lemma PushCreatesPipelineOnBranch(s: Store, envSecret: string, d: Delivery, hmac: (string, string) -> string,
                                    steps: seq<Step>, now: int, missingRow: Option<nat>, name: string)
    requires d.event == "push" && d.body.ref == HeadsPrefix + name
    requires !SignatureRejected(envSecret, d, hmac)
    requires FindRepo(s, PushGitUrl(d.body)).Some? && !Disabled(s, FindRepo(s, PushGitUrl(d.body)).value)
    ensures var r := HandleGithub(s, envSecret, d, hmac, steps, now, missingRow);
      && r.0.PipelineTriggered?
      && |r.1.pipelines| == |s.pipelines| + 1
      && var p := r.1.pipelines[|s.pipelines|];
      && RepoUrl(r.1, p.repoId) == Some(PushGitUrl(d.body))
      && p.branch == (if name == "" then "main" else name)
      && p.triggeredBy == "github:" + OrElse(d.body.pusherName, d.body.pusherEmail)
      && p.status == Running
  {
    BranchOfHeadsRef(name);
  }

  /** A delivery without a signature header is never rejected, whatever secret is configured. */
  lemma UnsignedDeliveryAccepted(s: Store, envSecret: string, d: Delivery, hmac: (string, string) -> string,
                                 steps: seq<Step>, now: int, missingRow: Option<nat>)
    requires d.signature == ""
    ensures HandleGithub(s, envSecret, d, hmac, steps, now, missingRow).0 != InvalidSignature
  {
  }

  /** With a secret configured, a delivery signed with another digest is a 401 that writes nothing. */
  lemma ForgedSignatureRejected(s: Store, envSecret: string, d: Delivery, hmac: (string, string) -> string,
                                steps: seq<Step>, now: int, missingRow: Option<nat>)
    requires envSecret != "" && d.signature != ""
    requires d.signature != SignaturePrefix + hmac(envSecret, d.serialized)
    ensures HandleGithub(s, envSecret, d, hmac, steps, now, missingRow) == (InvalidSignature, s)
  {
  }

  /**
   * The signature covers the whole body, not only the fields the handler
   * reads: of two deliveries that agree on those fields and on their headers
   * but serialise to texts with different digests, at most one gets past a
   * configured secret.
   */
  lemma SignatureCoversUnreadFields(s: Store, envSecret: string, d1: Delivery, d2: Delivery,
                                    hmac: (string, string) -> string, steps: seq<Step>, now: int,
                                    missingRow: Option<nat>)
    requires envSecret != "" && d1.signature != ""
    requires d1.signature == d2.signature && d1.event == d2.event && d1.body == d2.body
    requires hmac(envSecret, d1.serialized) != hmac(envSecret, d2.serialized)
    ensures HandleGithub(s, envSecret, d1, hmac, steps, now, missingRow).0 == InvalidSignature
         || HandleGithub(s, envSecret, d2, hmac, steps, now, missingRow).0 == InvalidSignature
  {
    var h1 := hmac(envSecret, d1.serialized);
    var h2 := hmac(envSecret, d2.serialized);
    if d1.signature == SignaturePrefix + h1 {
      assert (SignaturePrefix + h1)[|SignaturePrefix|..] == h1;
      assert (SignaturePrefix + h2)[|SignaturePrefix|..] == h2;
    }
  }

  // ---------------------------------------------------------------------
  // POST /repos/:repoId/webhooks and PATCH /webhooks/:id
  // ---------------------------------------------------------------------

  datatype RegisterReply = WebhookUpdated | WebhookCreated(id: nat, row: Webhook)

  /** `provider = "github"` in the destructuring: the default applies only when the field is absent. */
  function ProviderOf(provider: Option<string>): string {
    provider.GetOr(GithubProvider)
  }

  /** `secret || null`. */
  function SecretOf(secret: string): Option<string> {
    if secret == "" then None else Some(secret)
  }

  /** The UPDATE of the register route, applied to every row with the key. */
  function UpdateMatching(ws: seq<Webhook>, repoId: nat, provider: string, secret: Option<string>): (r: seq<Webhook>)
    ensures |r| == |ws|
    ensures forall i :: 0 <= i < |ws| && HasKey(ws[i], repoId, provider) ==>
      r[i] == ws[i].(secret := secret, isActive := true)
    ensures forall i :: 0 <= i < |ws| && !HasKey(ws[i], repoId, provider) ==> r[i] == ws[i]
  {
    seq(|ws|, i requires 0 <= i < |ws| =>
      if HasKey(ws[i], repoId, provider) then ws[i].(secret := secret, isActive := true) else ws[i])
  }

  /** Register a webhook: update the rows with this repository and provider, or insert an active row. */
  function Register(s: Store, repoId: nat, provider: Option<string>, secret: string): (r: (RegisterReply, Store))
    ensures r.1.repos == s.repos && r.1.pipelines == s.pipelines && r.1.jobs == s.jobs && r.1.queue == s.queue
    ensures var prov := ProviderOf(provider);
      r.0 == WebhookUpdated <==> exists i :: 0 <= i < |s.webhooks| && HasKey(s.webhooks[i], repoId, prov)
    ensures r.0 == WebhookUpdated ==>
      var prov := ProviderOf(provider);
      && |r.1.webhooks| == |s.webhooks|
      && (forall i :: 0 <= i < |s.webhooks| && HasKey(s.webhooks[i], repoId, prov) ==>
            r.1.webhooks[i] == Webhook(repoId, prov, SecretOf(secret), true))
      && (forall i :: 0 <= i < |s.webhooks| && !HasKey(s.webhooks[i], repoId, prov) ==>
            r.1.webhooks[i] == s.webhooks[i])
    ensures r.0.WebhookCreated? ==>
      var row := Webhook(repoId, ProviderOf(provider), SecretOf(secret), true);
      && r.0 == WebhookCreated(|s.webhooks|, row)
      && r.1.webhooks == s.webhooks + [row]
  {
    var prov := ProviderOf(provider);
    match FindWebhook(s.webhooks, repoId, prov)
    case Some(_) => (WebhookUpdated, s.(webhooks := UpdateMatching(s.webhooks, repoId, prov, SecretOf(secret))))
    case None =>
      var row := Webhook(repoId, prov, SecretOf(secret), true);
      (WebhookCreated(|s.webhooks|, row), s.(webhooks := s.webhooks + [row]))
  }

  /** No two webhook rows share a repository and provider. */
  predicate UniqueKeys(ws: seq<Webhook>) {
    forall i, j :: 0 <= i < j < |ws| ==> !HasKey(ws[j], ws[i].repoId, ws[i].provider)
  }

  /** The register route never creates a second row for a key: it inserts only when no row has the key. */
  lemma RegisterKeepsUniqueKeys(s: Store, repoId: nat, provider: Option<string>, secret: string)
    requires UniqueKeys(s.webhooks)
    ensures UniqueKeys(Register(s, repoId, provider, secret).1.webhooks)
  {
    var r := Register(s, repoId, provider, secret);
    var ws := r.1.webhooks;
    var prov := ProviderOf(provider);
    if r.0 == WebhookUpdated {
      forall i, j | 0 <= i < j < |ws| ensures !HasKey(ws[j], ws[i].repoId, ws[i].provider) {
        assert ws[i].repoId == s.webhooks[i].repoId && ws[i].provider == s.webhooks[i].provider;
        assert ws[j].repoId == s.webhooks[j].repoId && ws[j].provider == s.webhooks[j].provider;
      }
    } else {
      forall i, j | 0 <= i < j < |ws| ensures !HasKey(ws[j], ws[i].repoId, ws[i].provider) {
        if j == |s.webhooks| {
          assert ws[i] == s.webhooks[i];
          assert !HasKey(s.webhooks[i], repoId, prov);
        } else {
          assert ws[i] == s.webhooks[i] && ws[j] == s.webhooks[j];
        }
      }
    }
  }

  /** Registering the same webhook twice leaves the store as registering it once. */
  lemma RegisterIdempotent(s: Store, repoId: nat, provider: Option<string>, secret: string)
    ensures var s1 := Register(s, repoId, provider, secret).1;
      Register(s1, repoId, provider, secret) == (WebhookUpdated, s1)
  {
    var prov := ProviderOf(provider);
    var r1 := Register(s, repoId, provider, secret);
    var s1 := r1.1;
    var k :| 0 <= k < |s1.webhooks| && HasKey(s1.webhooks[k], repoId, prov) by {
      if r1.0 == WebhookUpdated {
        var i :| 0 <= i < |s.webhooks| && HasKey(s.webhooks[i], repoId, prov);
        assert HasKey(s1.webhooks[i], repoId, prov);
      } else {
        assert HasKey(s1.webhooks[|s.webhooks|], repoId, prov);
      }
    }
    var r2 := Register(s1, repoId, provider, secret);
    assert r2.0 == WebhookUpdated;
    assert r2.1.webhooks == s1.webhooks by {
      forall i | 0 <= i < |s1.webhooks| ensures r2.1.webhooks[i] == s1.webhooks[i] {
        if HasKey(s1.webhooks[i], repoId, prov) {
          if r1.0 == WebhookUpdated || i < |s.webhooks| {
            assert s1.webhooks[i] == Webhook(repoId, prov, SecretOf(secret), true);
          }
        }
      }
    }
  }

  /**
   * After a GitHub webhook is registered for a repository, a push for that
   * repository is no longer turned away as disabled.
   */
  lemma RegisterEnablesDelivery(s: Store, repoId: nat, secret: string)
    ensures !Disabled(Register(s, repoId, None, secret).1, repoId)
  {
    var s1 := Register(s, repoId, None, secret).1;
    var w := FindWebhook(s1.webhooks, repoId, GithubProvider);
    if w.Some? {
      assert HasKey(s1.webhooks[w.value], repoId, GithubProvider);
    }
  }

  /** PATCH /webhooks/:id: set the active flag of one row; `None` is the 404 reply. */
  function SetActive(s: Store, id: nat, isActive: bool): (r: (Option<Webhook>, Store))
    ensures r.0.None? <==> id >= |s.webhooks|
    ensures r.0.None? ==> r.1 == s
    ensures r.1.repos == s.repos && r.1.pipelines == s.pipelines && r.1.jobs == s.jobs && r.1.queue == s.queue
    ensures |r.1.webhooks| == |s.webhooks|
    ensures forall i :: 0 <= i < |s.webhooks| && i != id ==> r.1.webhooks[i] == s.webhooks[i]
    ensures r.0.Some? ==> r.0.value == r.1.webhooks[id] == s.webhooks[id].(isActive := isActive)
  {
    if id >= |s.webhooks| then (None, s)
    else
      var row := s.webhooks[id].(isActive := isActive);
      (Some(row), s.(webhooks := s.webhooks[id := row]))
  }

  /**
   * Switching a repository's only GitHub webhook off makes every later
   * push for that repository a 200 "disabled" reply that writes nothing.
   */
  lemma DisabledWebhookStopsPushes(s: Store, id: nat, envSecret: string, d: Delivery,
                                   hmac: (string, string) -> string, steps: seq<Step>, now: int, missingRow: Option<nat>)
    requires UniqueKeys(s.webhooks)
    requires id < |s.webhooks| && s.webhooks[id].provider == GithubProvider
    requires d.event == "push" && !SignatureRejected(envSecret, d, hmac)
    requires FindRepo(s, PushGitUrl(d.body)) == Some(s.webhooks[id].repoId)
    ensures var s1 := SetActive(s, id, false).1;
      HandleGithub(s1, envSecret, d, hmac, steps, now, missingRow) == (WebhookDisabled, s1)
  {
    var s1 := SetActive(s, id, false).1;
    var repoId := s.webhooks[id].repoId;
    assert HasKey(s1.webhooks[id], repoId, GithubProvider);
    var w := FindWebhook(s1.webhooks, repoId, GithubProvider);
    assert w == Some(id) by {
      assert w.Some? && w.value <= id;
    }
  }
}
