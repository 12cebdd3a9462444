/** Account setup links: how their stamps change, and the places that read them. Times are integers. */
module SetupLinks {
  import opened Options

  datatype Reason = Manual | Replaced | Cleanup

  /** A link with the stamps it carries. */
  datatype Link = Link(id: nat, request: string, createdAt: int, expiresAt: int, claimedAt: Option<int>,
                       failedAt: Option<int>, usedAt: Option<int>, revokedAt: Option<int>, revocation: Option<Reason>)

  datatype RequestStatus = Pending | Approved | Rejected | Rescinded

  /** `email` says whether the request carries an address. */
  datatype Request = Request(status: RequestStatus, completed: bool, grantLive: bool, email: bool)

  /** The delivery record of a link's email. */
  datatype Delivery = Delivered | DeliveryPending | DeliveryFailed

  // ---------------------------------------------------------------- reading one link

  datatype Status =
    | Valid | ExpiredLink | RevokedLink | ReplacedLink | UsedLink | ClaimedLink | FailedLink
    | NotApproved | RequestCompleted | RequestMissing | Missing | ClaimStarted | LinkCreated
    | RequestRescinded | NotSent | NotDelivered | DeliveryDue

  /** What a status tells the person: the statuses that share a message are one outcome. */
  datatype Outcome = Usable | InUse | Spent | Unfinished | Lapsed | Withdrawn | Superseded | Invalid

  function OutcomeOf(status: Status): Outcome {
    match status
    case Valid | ClaimStarted | LinkCreated | NotDelivered | DeliveryDue => Usable
    case ClaimedLink => InUse
    case UsedLink | RequestCompleted => Spent
    case FailedLink => Unfinished
    case ExpiredLink => Lapsed
    case RevokedLink | NotApproved | RequestRescinded => Withdrawn
    case ReplacedLink => Superseded
    case Missing | RequestMissing | NotSent => Invalid
  }

  /** Which statuses share a message. */
  lemma MessagesShared(status: Status)
    ensures OutcomeOf(status) == Usable <==> status in {Valid, ClaimStarted, LinkCreated, NotDelivered, DeliveryDue}
    ensures OutcomeOf(status) == Spent <==> status in {UsedLink, RequestCompleted}
    ensures OutcomeOf(status) == Withdrawn <==> status in {RevokedLink, NotApproved, RequestRescinded}
    ensures OutcomeOf(status) == Invalid <==> status in {Missing, RequestMissing, NotSent}
    ensures OutcomeOf(status) == InUse <==> status == ClaimedLink
    ensures OutcomeOf(status) == Unfinished <==> status == FailedLink
    ensures OutcomeOf(status) == Lapsed <==> status == ExpiredLink
    ensures OutcomeOf(status) == Superseded <==> status == ReplacedLink
  {
  }

  function RevokedStatus(reason: Option<Reason>): Status {
    match reason
    case Some(Cleanup) => ExpiredLink
    case Some(Manual) => RevokedLink
    case Some(Replaced) | None => ReplacedLink
  }

  /** How the setup page and the token check classify a link. */
  function ValidationStatus(link: Link, now: int): Status {
    if link.usedAt.Some? then UsedLink
    else if link.failedAt.Some? then FailedLink
    else if link.revokedAt.Some? then RevokedStatus(link.revocation)
    else if link.expiresAt <= now then ExpiredLink
    else if link.claimedAt.Some? then ClaimedLink
    else Valid
  }

  predicate GrantWithdrawn(request: Request) {
    request.status == Approved && !request.completed && !request.grantLive
  }

  /** The token check: the link first, then the request behind it. */
  function ValidateToken(link: Option<Link>, request: Option<Request>, now: int): Status {
    match link
    case None => Missing
    case Some(l) =>
      var status := ValidationStatus(l, now);
      if status != Valid && status != ClaimedLink then status
      else
        match request
        case None => Missing
        case Some(r) =>
          if r.completed && status != ClaimedLink then UsedLink
          else if r.status != Approved then NotApproved
          else if status == Valid && GrantWithdrawn(r) then NotApproved
          else status
  }

  /** What a claim says of the link alone, in its own order. */
  function ClaimStatus(link: Link, now: int): Status {
    if link.usedAt.Some? then UsedLink
    else if link.failedAt.Some? then FailedLink
    else if link.claimedAt.Some? then ClaimedLink
    else if link.revokedAt.Some? then if link.revocation == Some(Replaced) then ReplacedLink else RevokedLink
    else if link.expiresAt <= now then ExpiredLink
    else ClaimStarted
  }

  function ClaimOutcome(link: Option<Link>, requestId: string, request: Option<Request>, now: int): Status {
    if link == None || link.value.request != requestId || request == None then Missing
    else if request.value.completed then RequestCompleted
    else if request.value.status != Approved || !request.value.grantLive then NotApproved
    else ClaimStatus(link.value, now)
  }

  /** Why a claimed setup cannot be recovered; none if recovery goes on. */
  function RecoveryRefusal(link: Option<Link>, requestId: string, request: Option<Request>, now: int): Option<Status> {
    if link == None || link.value.request != requestId then Some(Missing)
    else if link.value.usedAt.Some? then Some(UsedLink)
    else if link.value.failedAt.Some? then Some(FailedLink)
    else if link.value.revokedAt.Some? then
      Some(if link.value.revocation == Some(Replaced) then ReplacedLink else RevokedLink)
    else if link.value.expiresAt <= now then Some(ExpiredLink)
    else if request == None || !request.value.email then Some(RequestMissing)
    else if request.value.status != Approved then Some(NotApproved)
    else if request.value.completed && link.value.claimedAt == None then Some(RequestCompleted)
    else None
  }

  /** What the setup page shows for a link its session names: the request first, then the link. */
  function PageStatus(link: Option<Link>, requestId: string, request: Option<Request>, now: int): Status {
    if request == None || !request.value.email then Missing
    else if request.value.status != Approved then NotApproved
    else if link == None || link.value.request != requestId then Missing
    else
      var status := ValidationStatus(link.value, now);
      if status == ClaimedLink then ClaimedLink
      else if request.value.completed then UsedLink
      else if status != Valid then status
      else if GrantWithdrawn(request.value) then NotApproved
      else Valid
  }

  /** What the setup-state read model says of a request by its newest link and the delivery record of that. */
  function SetupState(link: Option<Link>, request: Request, delivery: Option<Delivery>, now: int): Status {
    if request.completed || (link.Some? && link.value.usedAt.Some?) then UsedLink
    else if request.status == Rescinded then RequestRescinded
    else if link == None then NotSent
    else if link.value.failedAt.Some? then FailedLink
    else if link.value.claimedAt.Some? then ClaimedLink
    else if link.value.revokedAt.Some? then ReplacedLink
    else if link.value.expiresAt <= now then ExpiredLink
    else
      match delivery
      case Some(DeliveryFailed) => NotDelivered
      case Some(DeliveryPending) => DeliveryDue
      case _ => Valid
  }

  /** The rows a count of active links includes. */
  predicate CountsActive(link: Link, reference: int) {
    link.expiresAt > reference && link.claimedAt == None && link.failedAt == None && link.usedAt == None &&
      link.revokedAt == None
  }

  // ---------------------------------------------------------------- what stamps a link can carry

  ghost predicate StampsInOrder(link: Link) {
    && (link.usedAt.Some? || link.failedAt.Some? ==> link.claimedAt.Some?)
    && !(link.claimedAt.Some? && link.revokedAt.Some?)
    && !(link.usedAt.Some? && link.failedAt.Some?)
  }

  ghost predicate WellStamped(link: Link) {
    && StampsInOrder(link)
    && (link.revokedAt.Some? <==> link.revocation.Some?)
  }

  /** Neither claimed, used nor revoked. */
  predicate Open(link: Link) {
    link.claimedAt == None && link.usedAt == None && link.revokedAt == None
  }

  /** A stamp that is set stays as it is. */
  predicate Kept<T(==)>(before: Option<T>, after: Option<T>) {
    before.Some? ==> after == before
  }

  predicate Advances(before: Link, after: Link) {
    && after.id == before.id && after.request == before.request
    && after.createdAt == before.createdAt && after.expiresAt == before.expiresAt
    && Kept(before.claimedAt, after.claimedAt) && Kept(before.failedAt, after.failedAt) &&
      Kept(before.usedAt, after.usedAt)
    && Kept(before.revokedAt, after.revokedAt) && Kept(before.revocation, after.revocation)
  }

  /** No link is lost, and every link only gains stamps. */
  ghost predicate AllAdvance(before: seq<Link>, after: seq<Link>) {
    |before| <= |after| && forall i :: 0 <= i < |before| ==> Advances(before[i], after[i])
  }

  ghost predicate OneOpenEach(links: seq<Link>) {
    forall i, j :: 0 <= i < j < |links| && Open(links[i]) && Open(links[j]) ==> links[i].request != links[j].request
  }

  ghost predicate Sound(links: seq<Link>) {
    && (forall i :: 0 <= i < |links| ==> WellStamped(links[i]))
    && (forall i, j :: 0 <= i < j < |links| ==> links[i].id != links[j].id)
    && OneOpenEach(links)
  }

  // ---------------------------------------------------------------- commands

  /** The stored links, the requests behind them, and the number of the last link. */
  datatype Store = Store(links: seq<Link>, requests: map<string, Request>, lastId: nat)

  ghost predicate WellKept(s: Store) {
    Sound(s.links) && forall i :: 0 <= i < |s.links| ==> s.links[i].id <= s.lastId
  }

  function Lookup(requests: map<string, Request>, id: string): Option<Request> {
    if id in requests then Some(requests[id]) else None
  }

  /** The first link with this id. */
  function Find(links: seq<Link>, id: nat): (at: Option<nat>)
    ensures at.Some? ==> at.value < |links| && links[at.value].id == id
    decreases |links|
  {
    if links == [] then None
    else
      var before := Find(links[..|links| - 1], id);
      if before == None && links[|links| - 1].id == id then Some(|links| - 1) else before
  }

  lemma {:induction false} FindMisses(links: seq<Link>, id: nat)
    requires Find(links, id) == None
    ensures forall i :: 0 <= i < |links| ==> links[i].id != id
    decreases |links|
  {
    if links != [] {
      FindMisses(links[..|links| - 1], id);
    }
  }

  function IssueOutcome(request: Option<Request>): Status {
    match request
    case None => Missing
    case Some(r) =>
      if r.status != Approved then NotApproved
      else if r.completed then RequestCompleted
      else if !r.grantLive then NotApproved
      else LinkCreated
  }

  function ReplacedAt(link: Link, request: string, at: int): Link {
    if link.request == request && Open(link) then link.(revokedAt := Some(at), revocation := Some(Replaced)) else link
  }

  function CleanedAt(link: Link, cutoff: int, at: int): Link {
    if link.expiresAt <= cutoff && Open(link) then link.(revokedAt := Some(at), revocation := Some(Cleanup)) else link
  }

  function NewLink(id: nat, request: string, createdAt: int, expiresAt: int): Link {
    Link(id, request, createdAt, expiresAt, None, None, None, None, None)
  }

  function Replacing(links: seq<Link>, request: string, at: int): seq<Link> {
    seq(|links|, i requires 0 <= i < |links| => ReplacedAt(links[i], request, at))
  }

  function Cleaning(links: seq<Link>, cutoff: int, at: int): seq<Link> {
    seq(|links|, i requires 0 <= i < |links| => CleanedAt(links[i], cutoff, at))
  }

  function Issued(s: Store, request: string, createdAt: int, expiresAt: int): Store {
    if IssueOutcome(Lookup(s.requests, request)) != LinkCreated then s
    else
      s.(links := Replacing(s.links, request, createdAt) + [NewLink(s.lastId + 1, request, createdAt, expiresAt)],
         lastId := s.lastId + 1)
  }

  function ClaimAnswer(s: Store, id: nat, request: string, at: int): Status {
    var found := Find(s.links, id);
    ClaimOutcome(if found.Some? then Some(s.links[found.value]) else None, request, Lookup(s.requests, request), at)
  }

  function Claimed(s: Store, id: nat, request: string, at: int): Store {
    var found := Find(s.links, id);
    if found == None || ClaimAnswer(s, id, request, at) != ClaimStarted then s
    else s.(links := s.links[found.value := s.links[found.value].(claimedAt := Some(at))])
  }

  predicate CanComplete(link: Link) {
    link.claimedAt.Some? && link.failedAt == None && link.usedAt == None && link.revokedAt == None
  }

  predicate CanFail(link: Link) {
    link.claimedAt.Some? && link.failedAt == None && link.usedAt == None
  }

  function Completed(s: Store, id: nat, at: int): Store {
    var found := Find(s.links, id);
    if found == None || !CanComplete(s.links[found.value]) then s
    else s.(links := s.links[found.value := s.links[found.value].(usedAt := Some(at))])
  }

  function Failed(s: Store, id: nat, at: int): Store {
    var found := Find(s.links, id);
    if found == None || !CanFail(s.links[found.value]) then s
    else s.(links := s.links[found.value := s.links[found.value].(failedAt := Some(at))])
  }

  function Cleaned(s: Store, cutoff: int, at: int): Store {
    s.(links := Cleaning(s.links, cutoff, at))
  }

  /** The commands on links; Decide stands for any change to a request made elsewhere. */
  datatype Command =
    | Issue(request: string, createdAt: int, expiresAt: int)
    | Claim(id: nat, request: string, at: int)
    | Complete(id: nat, at: int)
    | Fail(id: nat, at: int)
    | Clean(cutoff: int, at: int)
    | Decide(request: string, decision: Request)

  function Apply(s: Store, command: Command): Store {
    match command
    case Issue(request, createdAt, expiresAt) => Issued(s, request, createdAt, expiresAt)
    case Claim(id, request, at) => Claimed(s, id, request, at)
    case Complete(id, at) => Completed(s, id, at)
    case Fail(id, at) => Failed(s, id, at)
    case Clean(cutoff, at) => Cleaned(s, cutoff, at)
    case Decide(request, decision) => s.(requests := s.requests[request := decision])
  }

  function ApplyAll(s: Store, commands: seq<Command>): Store
    decreases |commands|
  {
    if commands == [] then s else ApplyAll(Apply(s, commands[0]), commands[1..])
  }

  // ---------------------------------------------------------------- what each command changes

  /** All else of the link is as it was. */
  ghost predicate SameBut(before: Link, after: Link, claimed: bool, failed: bool, used: bool, revoked: bool) {
    && after.id == before.id && after.request == before.request
    && after.createdAt == before.createdAt && after.expiresAt == before.expiresAt
    && (claimed || after.claimedAt == before.claimedAt) && (failed || after.failedAt == before.failedAt)
    && (used || after.usedAt == before.usedAt)
    && (revoked || (after.revokedAt == before.revokedAt && after.revocation == before.revocation))
  }

  ghost predicate IsApproved(requests: map<string, Request>, request: string) {
    request in requests && requests[request].status == Approved && !requests[request].completed &&
    requests[request].grantLive
  }

  /** A link nobody stamped, of this request, that has not expired: the one a claim starts on. */
  ghost predicate Claimable(s: Store, link: Link, request: string, at: int) {
    && link.request == request && IsApproved(s.requests, request) && at < link.expiresAt
    && link.claimedAt == None && link.failedAt == None && link.usedAt == None && link.revokedAt == None
  }

  lemma FindIs(s: Store, id: nat, i: nat)
    requires WellKept(s) && i < |s.links| && s.links[i].id == id
    ensures Find(s.links, id) == Some(i)
  {
    if Find(s.links, id) == None {
      FindMisses(s.links, id);
    }
  }

  /** A claim stamps the named link with its instant exactly when it is claimable, and no other. */
  lemma ClaimedIs(s: Store, id: nat, request: string, at: int, i: nat)
    requires WellKept(s) && i < |s.links|
    ensures var links := Claimed(s, id, request, at).links;
            && |links| == |s.links| && SameBut(s.links[i], links[i], true, false, false, false)
            && links[i].claimedAt ==
               if s.links[i].id == id && Claimable(s, s.links[i], request, at) then Some(at) else s.links[i].claimedAt
  {
    if s.links[i].id == id {
      FindIs(s, id, i);
    }
  }

  /** Completing stamps the named link as used at its instant, if it is claimed and carries no other stamp. */
  lemma CompletedIs(s: Store, id: nat, at: int, i: nat)
    requires WellKept(s) && i < |s.links|
    ensures var links, link := Completed(s, id, at).links, s.links[i];
            && |links| == |s.links| && SameBut(link, links[i], false, false, true, false)
            && links[i].usedAt ==
               if link.id == id && link.claimedAt.Some? && link.failedAt == None && link.usedAt == None &&
                 link.revokedAt == None
               then Some(at) else link.usedAt
  {
    if s.links[i].id == id {
      FindIs(s, id, i);
    }
  }

  /** Failing stamps the named link as failed at its instant, if it is claimed and neither failed nor used. */
  lemma FailedIs(s: Store, id: nat, at: int, i: nat)
    requires WellKept(s) && i < |s.links|
    ensures var links, link := Failed(s, id, at).links, s.links[i];
            && |links| == |s.links| && SameBut(link, links[i], false, true, false, false)
            && links[i].failedAt ==
               if link.id == id && link.claimedAt.Some? && link.failedAt == None && link.usedAt == None
               then Some(at) else link.failedAt
  {
    if s.links[i].id == id {
      FindIs(s, id, i);
    }
  }

  /** Issuing revokes the request's open links as replaced at its instant, and adds one link with the given times. */
  lemma IssuedIs(s: Store, request: string, createdAt: int, expiresAt: int)
    requires WellKept(s)
    ensures var after := Issued(s, request, createdAt, expiresAt);
            if !IsApproved(s.requests, request) then after == s
            else
              && |after.links| == |s.links| + 1 && after.requests == s.requests
              && (forall i :: 0 <= i < |s.links| ==>
                    var link := s.links[i];
                    && SameBut(link, after.links[i], false, false, false, true)
                    && if link.request == request && link.claimedAt == None && link.usedAt == None &&
                         link.revokedAt == None
                       then after.links[i].revokedAt == Some(createdAt) && after.links[i].revocation == Some(Replaced)
                       else after.links[i] == link)
              && NewLinkFor(after.links[|s.links|], request, createdAt, expiresAt)
              && after.links[|s.links|].id == s.lastId + 1 == after.lastId
              && forall i :: 0 <= i < |s.links| ==> after.links[i].id != after.links[|s.links|].id
  {
  }

  /** The link has the given times and no stamp. */
  ghost predicate NewLinkFor(link: Link, request: string, createdAt: int, expiresAt: int) {
    && link.request == request && link.createdAt == createdAt && link.expiresAt == expiresAt
    && link.claimedAt == None && link.failedAt == None && link.usedAt == None && link.revokedAt == None
    && link.revocation == None
  }

  /** A new link is valid until it expires. */
  lemma NewLinkIsValid(link: Link, request: string, createdAt: int, expiresAt: int, now: int)
    requires NewLinkFor(link, request, createdAt, expiresAt)
    ensures ValidationStatus(link, now) == Valid <==> now < expiresAt
    ensures ValidationStatus(link, now) == ExpiredLink <==> expiresAt <= now
  {
  }

  /** Cleaning revokes exactly the unstamped links expired by the cutoff, at its instant, as cleaned up. */
  lemma CleanedIs(s: Store, cutoff: int, at: int, i: nat)
    requires i < |s.links|
    ensures var links, link := Cleaned(s, cutoff, at).links, s.links[i];
            && |links| == |s.links| && SameBut(link, links[i], false, false, false, true)
            && if link.expiresAt <= cutoff && link.claimedAt == None && link.usedAt == None && link.revokedAt == None
               then links[i].revokedAt == Some(at) && links[i].revocation == Some(Cleanup)
               else links[i] == link
  {
  }

  // ---------------------------------------------------------------- what every run keeps

  lemma ReplacingKeepsSound(before: seq<Link>, after: seq<Link>, request: string, at: int, link: Link)
    requires Sound(before) && |after| == |before| && WellStamped(link) && link.request == request
    requires forall i :: 0 <= i < |after| ==> after[i] == ReplacedAt(before[i], request, at) && before[i].id != link.id
    ensures Sound(after + [link]) && AllAdvance(before, after + [link])
  {
    var links := after + [link];
    forall i | 0 <= i < |before|
      ensures WellStamped(links[i]) && Advances(before[i], links[i]) && links[i].id == before[i].id
      ensures Open(links[i]) ==> Open(before[i]) && links[i].request != request
    {
      assert WellStamped(before[i]);
    }
  }

  lemma CleaningKeepsSound(before: seq<Link>, after: seq<Link>, cutoff: int, at: int)
    requires Sound(before) && |after| == |before|
    requires forall i :: 0 <= i < |after| ==> after[i] == CleanedAt(before[i], cutoff, at)
    ensures Sound(after) && AllAdvance(before, after)
  {
    forall i | 0 <= i < |before|
      ensures WellStamped(after[i]) && Advances(before[i], after[i]) && (Open(after[i]) ==> Open(before[i]))
    {
      assert WellStamped(before[i]);
    }
  }

  lemma StampKeepsSound(links: seq<Link>, i: nat, link: Link)
    requires Sound(links) && i < |links| && Advances(links[i], link) && WellStamped(link)
    ensures Sound(links[i := link]) && AllAdvance(links, links[i := link])
  {
    forall j | 0 <= j < |links|
      ensures Open(links[i := link][j]) ==> Open(links[j])
    {
    }
  }

  /** Every command keeps the links sound, loses none, and only adds stamps. */
  lemma ApplyKeeps(s: Store, command: Command)
    requires WellKept(s)
    ensures WellKept(Apply(s, command)) && AllAdvance(s.links, Apply(s, command).links)
  {
    match command
    case Issue(request, createdAt, expiresAt) => IssuedKeeps(s, request, createdAt, expiresAt);
    case Claim(id, request, at) => StampedKeeps(s, id, command);
    case Complete(id, at) => StampedKeeps(s, id, command);
    case Fail(id, at) => StampedKeeps(s, id, command);
    case Clean(cutoff, at) => CleaningKeepsSound(s.links, Cleaned(s, cutoff, at).links, cutoff, at);
    case Decide(_, _) =>
  }

  lemma IssuedKeeps(s: Store, request: string, createdAt: int, expiresAt: int)
    requires WellKept(s)
    ensures WellKept(Issued(s, request, createdAt, expiresAt)) &&
            AllAdvance(s.links, Issued(s, request, createdAt, expiresAt).links)
  {
    if IssueOutcome(Lookup(s.requests, request)) == LinkCreated {
      var links := Issued(s, request, createdAt, expiresAt).links;
      ReplacingKeepsSound(s.links, links[..|s.links|], request, createdAt,
                          NewLink(s.lastId + 1, request, createdAt, expiresAt));
      assert links == links[..|s.links|] + [NewLink(s.lastId + 1, request, createdAt, expiresAt)];
    }
  }

  lemma StampedKeeps(s: Store, id: nat, command: Command)
    requires WellKept(s)
    requires (command.Claim? || command.Complete? || command.Fail?) && command.id == id
    ensures WellKept(Apply(s, command)) && AllAdvance(s.links, Apply(s, command).links)
  {
    var found, after := Find(s.links, id), Apply(s, command).links;
    if found.Some? && after != s.links {
      assert WellStamped(s.links[found.value]);
      StampKeepsSound(s.links, found.value, after[found.value]);
    }
  }

  lemma {:induction false} RunKeeps(s: Store, commands: seq<Command>)
    requires WellKept(s)
    ensures WellKept(ApplyAll(s, commands)) && AllAdvance(s.links, ApplyAll(s, commands).links)
    decreases |commands|
  {
    if commands != [] {
      ApplyKeeps(s, commands[0]);
      RunKeeps(Apply(s, commands[0]), commands[1..]);
      AdvancesTwice(s.links, Apply(s, commands[0]).links, ApplyAll(s, commands).links);
    }
  }

  lemma AdvancesTwice(a: seq<Link>, b: seq<Link>, c: seq<Link>)
    requires AllAdvance(a, b) && AllAdvance(b, c)
    ensures AllAdvance(a, c)
  {
    forall i | 0 <= i < |a|
      ensures Advances(a[i], c[i])
    {
      assert Advances(a[i], b[i]) && Advances(b[i], c[i]);
    }
  }

  /** A link that stopped being valid never is again, whatever stamps it gains and however late it is read. */
  lemma NeverValidAgain(before: Link, after: Link, now: int, later: int)
    requires Advances(before, after) && now <= later
    ensures ValidationStatus(before, now) != Valid ==> ValidationStatus(after, later) != Valid
    ensures ValidationStatus(before, now) == UsedLink ==> ValidationStatus(after, later) == UsedLink
  {
  }

  /**
   * After any run from an empty store: stamps are consistent, at most one link of a request is open, and after any
   * further run the same links are there with the same stamps or more, none valid again once it was not.
   */
  lemma EveryRun(requests: map<string, Request>, commands: seq<Command>, more: seq<Command>, i: nat, now: int,
                 later: int)
    requires now <= later
    ensures var s := ApplyAll(Store([], requests, 0), commands);
            var t := ApplyAll(s, more);
            && Sound(s.links)
            && (i < |s.links| ==> i < |t.links| && Advances(s.links[i], t.links[i]))
            && (i < |s.links| && ValidationStatus(s.links[i], now) != Valid ==>
                ValidationStatus(t.links[i], later) != Valid)
  {
    RunKeeps(Store([], requests, 0), commands);
    var s := ApplyAll(Store([], requests, 0), commands);
    RunKeeps(s, more);
    if i < |s.links| {
      NeverValidAgain(s.links[i], ApplyAll(s, more).links[i], now, later);
    }
  }

  /** After a successful issue the new link is the only open one of its request. */
  lemma IssuedIsOnlyOpen(s: Store, request: string, createdAt: int, expiresAt: int, i: nat)
    requires WellKept(s) && IssueOutcome(Lookup(s.requests, request)) == LinkCreated
    ensures var links := Issued(s, request, createdAt, expiresAt).links;
            i < |links| && links[i].request == request ==> (Open(links[i]) <==> i == |s.links|)
  {
  }

  /** Cleaning up to a moment not after `at` makes no valid link invalid, and takes every expired open one out. */
  lemma CleaningKeepsValid(s: Store, cutoff: int, at: int, i: nat)
    requires cutoff <= at && i < |s.links|
    ensures ValidationStatus(Cleaned(s, cutoff, at).links[i], at) == Valid <==>
            ValidationStatus(s.links[i], at) == Valid
    ensures Open(Cleaned(s, cutoff, at).links[i]) <==> Open(s.links[i]) && cutoff < s.links[i].expiresAt
  {
  }

  // ---------------------------------------------------------------- the store

  class LinkStore {
    var links: seq<Link>
    var requests: map<string, Request>
    var linkId: nat

    ghost function Now(): Store
      reads this
    {
      Store(links, requests, linkId)
    }

    constructor (requests: map<string, Request>)
      ensures Now() == Store([], requests, 0) && WellKept(Now())
    {
      this.links, this.requests, linkId := [], requests, 0;
    }

    /** Revokes the request's open links as replaced and adds the new one; `revoked` are the ids of those. */
    method IssueLink(request: string, createdAt: int, expiresAt: int) returns (status: Status, revoked: seq<nat>)
      requires WellKept(Now())
      modifies this`links, this`linkId
      ensures WellKept(Now()) && Now() == Issued(old(Now()), request, createdAt, expiresAt)
      ensures status == IssueOutcome(Lookup(requests, request))
      ensures forall id :: id in revoked <==>
              exists i :: 0 <= i < |old(links)| && old(links)[i].id == id && links[i] != old(links)[i]
    {
      ApplyKeeps(Now(), Issue(request, createdAt, expiresAt));
      revoked := [];
      if request !in requests {
        return Missing, revoked;
      }
      var r := requests[request];
      if r.status != Approved {
        return NotApproved, revoked;
      }
      if r.completed {
        return RequestCompleted, revoked;
      }
      if !r.grantLive {
        return NotApproved, revoked;
      }
      revoked := ReplaceOpen(request, createdAt);
      linkId := linkId + 1;
      links := links + [NewLink(linkId, request, createdAt, expiresAt)];
      return LinkCreated, revoked;
    }

    method ReplaceOpen(request: string, at: int) returns (revoked: seq<nat>)
      modifies this`links
      ensures links == Replacing(old(links), request, at)
      ensures forall id :: id in revoked <==>
              exists i :: 0 <= i < |links| && old(links)[i].id == id && links[i] != old(links)[i]
    {
      revoked := [];
      for i := 0 to |links|
        invariant |links| == |old(links)|
        invariant forall j :: 0 <= j < |links| ==>
                  links[j] == if j < i then ReplacedAt(old(links)[j], request, at) else old(links)[j]
        invariant forall id :: id in revoked <==>
                  exists j :: 0 <= j < i && old(links)[j].id == id && links[j] != old(links)[j]
      {
        if links[i].request == request && Open(links[i]) {
          revoked := revoked + [links[i].id];
          links := links[i := links[i].(revokedAt := Some(at), revocation := Some(Replaced))];
        }
      }
    }

    method ClaimLink(id: nat, request: string, at: int) returns (status: Status)
      requires WellKept(Now())
      modifies this`links
      ensures WellKept(Now()) && Now() == Claimed(old(Now()), id, request, at)
      ensures status == ClaimAnswer(old(Now()), id, request, at)
    {
      ApplyKeeps(Now(), Claim(id, request, at));
      var found := Find(links, id);
      if found == None || links[found.value].request != request || request !in requests {
        return Missing;
      }
      status := ClaimOutcome(Some(links[found.value]), request, Some(requests[request]), at);
      if status == ClaimStarted {
        links := links[found.value := links[found.value].(claimedAt := Some(at))];
      }
    }

    method MarkCompleted(id: nat, at: int) returns (marked: bool)
      requires WellKept(Now())
      modifies this`links
      ensures WellKept(Now()) && Now() == Completed(old(Now()), id, at)
      ensures marked <==> exists i :: 0 <= i < |links| && old(links)[i].id == id && CanComplete(old(links)[i])
    {
      ApplyKeeps(Now(), Complete(id, at));
      marked := Stampable(id, CanComplete);
      if marked {
        var at' := Find(links, id).value;
        links := links[at' := links[at'].(usedAt := Some(at))];
      }
    }

    method MarkFailed(id: nat, at: int) returns (marked: bool)
      requires WellKept(Now())
      modifies this`links
      ensures WellKept(Now()) && Now() == Failed(old(Now()), id, at)
      ensures marked <==> exists i :: 0 <= i < |links| && old(links)[i].id == id && CanFail(old(links)[i])
    {
      ApplyKeeps(Now(), Fail(id, at));
      marked := Stampable(id, CanFail);
      if marked {
        var at' := Find(links, id).value;
        links := links[at' := links[at'].(failedAt := Some(at))];
      }
    }

    /** Whether the link with this id, of which there is one at most, may be stamped. */
    method Stampable(id: nat, allowed: Link -> bool) returns (found: bool)
      requires WellKept(Now())
      ensures found <==> exists i :: 0 <= i < |links| && links[i].id == id && allowed(links[i])
      ensures found <==> Find(links, id).Some? && allowed(links[Find(links, id).value])
    {
      var at := Find(links, id);
      if at == None {
        FindMisses(links, id);
        return false;
      }
      found := allowed(links[at.value]);
      assert forall i :: 0 <= i < |links| && links[i].id == id ==> i == at.value;
    }

    /** Revokes every open link that expired by `cutoff`. */
    method RevokeExpiredUnused(cutoff: int, at: int) returns (count: nat)
      requires WellKept(Now())
      modifies this`links
      ensures WellKept(Now()) && Now() == Cleaned(old(Now()), cutoff, at)
      ensures count == |set i | 0 <= i < |links| && links[i] != old(links)[i]|
    {
      ApplyKeeps(Now(), Clean(cutoff, at));
      count := RevokeOpen(cutoff, at);
    }

    method RevokeOpen(cutoff: int, at: int) returns (count: nat)
      modifies this`links
      ensures links == Cleaning(old(links), cutoff, at)
      ensures count == |set i | 0 <= i < |links| && links[i] != old(links)[i]|
    {
      count := 0;
      ghost var changed: set<int> := {};
      for i := 0 to |links|
        invariant |links| == |old(links)|
        invariant forall j :: 0 <= j < |links| ==>
                  links[j] == if j < i then CleanedAt(old(links)[j], cutoff, at) else old(links)[j]
        invariant forall j :: j in changed <==> 0 <= j < i && links[j] != old(links)[j]
        invariant count == |changed|
      {
        if links[i].expiresAt <= cutoff && Open(links[i]) {
          links := links[i := links[i].(revokedAt := Some(at), revocation := Some(Cleanup))];
          changed := changed + {i};
          count := count + 1;
        }
      }
      assert changed == set i | 0 <= i < |links| && links[i] != old(links)[i];
    }
  }

  // ---------------------------------------------------------------- what the readers agree on

  /** A claim starts exactly when the token check would call the link valid at that instant. */
  lemma ClaimStartsIffValid(link: Option<Link>, requestId: string, request: Option<Request>, now: int)
    requires link.Some? ==> link.value.request == requestId
    ensures ClaimOutcome(link, requestId, request, now) == ClaimStarted <==> ValidateToken(link, request, now) == Valid
  {
  }

  /** A claim that has neither finished nor failed, on a link that has expired since. */
  predicate ClaimedPastExpiry(link: Link, now: int) {
    link.claimedAt.Some? && link.usedAt == None && link.failedAt == None && link.expiresAt <= now
  }

  /** Revoked by the cleanup, or for no recorded reason. */
  predicate RevokedOtherwise(link: Link) {
    link.revokedAt.Some? && (link.revocation == Some(Cleanup) || link.revocation == None)
  }

  predicate Revoked(link: Link, reason: Reason) {
    link.revokedAt.Some? && link.revocation == Some(reason)
  }

  /** Neither used, failed, revoked nor expired. */
  predicate Live(link: Link, now: int) {
    link.usedAt == None && link.failedAt == None && link.revokedAt == None && now < link.expiresAt
  }

  predicate Unclaimed(link: Link, now: int) {
    Live(link, now) && link.claimedAt == None
  }

  /**
   * When the claim and the token check tell the same outcome. For a request that is approved, incomplete and granted
   * they differ on two kinds of links only; for any other the claim looks at the request first, the token check last.
   */
  lemma ClaimAgreesIff(link: Link, request: Option<Request>, now: int)
    requires StampsInOrder(link)
    ensures var claim := ClaimOutcome(Some(link), link.request, request, now);
            var token := ValidateToken(Some(link), request, now);
            OutcomeOf(claim) == OutcomeOf(token) <==>
            match request
            case None => Live(link, now)
            case Some(r) =>
              if r.completed then link.usedAt.Some? || Unclaimed(link, now)
              else if r.status != Approved then Live(link, now) || Revoked(link, Manual)
              else if !r.grantLive then Unclaimed(link, now) || Revoked(link, Manual)
              else !RevokedOtherwise(link) && !ClaimedPastExpiry(link, now)
  {
  }

  /** Recovery goes on with the outcome of a live link: in use if claimed, usable if not. */
  function RecoveryOutcome(link: Link, request: Option<Request>, now: int): Outcome {
    match RecoveryRefusal(Some(link), link.request, request, now)
    case Some(status) => OutcomeOf(status)
    case None => if link.claimedAt.Some? then InUse else Usable
  }

  /**
   * When recovery and the token check tell the same outcome. Recovery never looks at the grant, wants an address, and
   * checks approval before completion.
   */
  lemma RecoveryAgreesIff(link: Link, request: Option<Request>, now: int)
    requires StampsInOrder(link)
    ensures RecoveryOutcome(link, request, now) == OutcomeOf(ValidateToken(Some(link), request, now)) <==>
            if !Live(link, now) then !RevokedOtherwise(link)
            else
              match request
              case None => true
              case Some(r) =>
                r.email && (link.claimedAt.Some? ||
                            (if r.status == Approved then r.completed || r.grantLive else !r.completed))
  {
  }

  /** When the setup page and the token check tell the same outcome: the page looks at the request first. */
  lemma PageAgreesIff(link: Link, request: Option<Request>, now: int)
    requires StampsInOrder(link)
    ensures var page := PageStatus(Some(link), link.request, request, now);
            var token := ValidateToken(Some(link), request, now);
            OutcomeOf(page) == OutcomeOf(token) <==>
            match request
            case None => Live(link, now)
            case Some(r) =>
              if !r.email then false
              else if r.status != Approved then
                if r.completed then (Live(link, now) && link.claimedAt.Some?) || Revoked(link, Manual)
                else Live(link, now) || Revoked(link, Manual)
              else !r.completed || Live(link, now) || link.usedAt.Some?
  {
  }

  /** When the read model, which knows no grant, and the token check tell the same outcome. */
  lemma SetupStateAgreesIff(link: Link, request: Request, delivery: Option<Delivery>, now: int)
    requires StampsInOrder(link)
    ensures var state := SetupState(Some(link), request, delivery, now);
            var token := ValidateToken(Some(link), Some(request), now);
            OutcomeOf(state) == OutcomeOf(token) <==>
            if request.completed then link.usedAt.Some? || Unclaimed(link, now)
            else if link.usedAt.Some? then true
            else if request.status == Rescinded then Live(link, now) || Revoked(link, Manual)
            else if Live(link, now) then request.status == Approved && (link.claimedAt.Some? || request.grantLive)
            else !Revoked(link, Manual) && !Revoked(link, Cleanup) && !ClaimedPastExpiry(link, now)
  {
  }

  /**
   * Behind an approved, incomplete request with an address and a live grant all five readers tell one outcome, unless
   * the link was revoked by anything but a replacement or its claim is past its expiry.
   */
  lemma ReadersAgree(link: Link, request: Request, delivery: Option<Delivery>, now: int)
    requires StampsInOrder(link) && !ClaimedPastExpiry(link, now) && (link.revokedAt.Some? ==> Revoked(link, Replaced))
    requires request == Request(Approved, false, true, true)
    ensures var outcome := OutcomeOf(ValidateToken(Some(link), Some(request), now));
            && OutcomeOf(ClaimOutcome(Some(link), link.request, Some(request), now)) == outcome
            && RecoveryOutcome(link, Some(request), now) == outcome
            && OutcomeOf(PageStatus(Some(link), link.request, Some(request), now)) == outcome
            && OutcomeOf(SetupState(Some(link), request, delivery, now)) == outcome
  {
    ClaimAgreesIff(link, Some(request), now);
    RecoveryAgreesIff(link, Some(request), now);
    PageAgreesIff(link, Some(request), now);
    SetupStateAgreesIff(link, request, delivery, now);
  }

  /** Once the request is completed the read model calls every link used; the others do so only for the used one. */
  lemma CompletedRequestReadsUsed(link: Link, request: Request, delivery: Option<Delivery>, now: int)
    requires WellStamped(link) && request.completed
    ensures SetupState(Some(link), request, delivery, now) == UsedLink
    ensures ValidateToken(Some(link), Some(request), now) == UsedLink <==>
            link.usedAt.Some? || ValidationStatus(link, now) == Valid
  {
  }

  /** The count of active links is the count of valid ones. */
  lemma ActiveIffValid(link: Link, reference: int)
    ensures CountsActive(link, reference) <==> ValidationStatus(link, reference) == Valid
  {
  }
}
