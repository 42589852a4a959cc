# rest2smtp relay quota engine — a Dafny model

rest2smtp is an HTTP-to-SMTP gateway. It sends each mail through one of several SMTP relay
accounts, each with a daily quota. This project models three parts of it and proves their
properties:

- **The load balancer** (`LoadBalancer`, file `load_balancer.dfy`). It keeps one request
  counter per relay and a rotation cursor. `SelectAndCount` scans the relays round-robin,
  starting one past the cursor and wrapping at the end. It takes the first relay whose count
  is below its limit, counts one request against it and moves the cursor to it. When no relay
  qualifies it returns -1. A background pass (`DecayPass`) takes `limit / 24` off every
  counter and clamps at 0: a leaky bucket that releases a day's quota in 24 hourly slices.
  Two reporting sums (`TotalLimitPerDay`, `CanSendImmediately`) are also modelled. The pure
  specification (`Quota`, `Select`, `Decayed`, the sums) sits beside the class `Balancer`.
  The class holds `limits: seq<int>`, `counts: array<int>` and `cursor: int`, and its
  methods are proved against that specification.
- **The send-with-failover loop** (`Smtp`, file `smtp.dfy`). `Send` asks the balancer for a
  relay and attempts delivery. It returns `true` on the first success. After a failure it
  records the relay and asks again. It stops when the balancer answers -1, when as many
  attempts as there are relays have failed, or when the safety counter reaches 1000.
  Delivery is an oracle: a function from (message, attempt number, relay index) to success.
  `Attempts` is the loop as a recursive function, and the method `Send` is proved equal to it.
  `SendFields` is the string overload. It builds the message (`Compose`) and then sends it.
- **Master-key validation** (`MasterAccounts`, file `master_accounts.dfy`). A presented key
  is accepted when some configured account holds the digest of the decoded key and has a
  validity window that strictly contains the current instant. Base64 decoding, SHA-512,
  DateTime parsing and the clock are parameters.

`wrappers.dfy` defines `Option` and `Result`.

Behaviour of the code worth knowing:

- Eligibility is `count < limit` (services/LoadBalancerService.cs:92). A relay with limit L
  therefore serves L requests before it is exhausted; with limit 2 it serves two
  (`RoundRobinTwoRelays`).
- The two reporting sums take one off each limit. The comment at
  services/LoadBalancerService.cs:43 gives the reason: `SelectAndCount` compares with `<`
  and not `<=`. Selection itself takes nothing off.
- The balancer is not told which relays already failed. The send loop only counts failed
  attempts, so one `Send` can try the same relay more than once (`SameRelayRetried`).
- An absent window bound is replaced by `DateTime.MinValue` or `DateTime.MaxValue`, and not
  by "unbounded". The two agree for every instant strictly between those values (the
  `ensures` of `IsValidNow`).

## Model

| member | source | states |
|---|---|---|
| `LoadBalancer.Balancer.constructor` | services/LoadBalancerService.cs:52-64 | one counter per configured limit, all 0; cursor -1 (nothing selected yet) |
| `LoadBalancer.Balancer.SelectAndCount` | services/LoadBalancerService.cs:70-111 | the loop returns -1 or a relay index; the new counters and cursor are exactly those `Select` gives; counters stay non-negative |
| `LoadBalancer.ScanFrom` | services/LoadBalancerService.cs:86-101 | the wrapping scan examines each relay at most once and yields -1 or an index in range |
| `LoadBalancer.Select` | services/LoadBalancerService.cs:86-105 | the chosen index is -1 or in range, and the cursor afterwards stays in [-1, n) |
| `LoadBalancer.ScanFromFindsFirst` | services/LoadBalancerService.cs:86-92 | from any scan step on, the scan returns the first eligible relay in cyclic order, or -1 when none of the remaining relays is eligible |
| `LoadBalancer.SelectNoneIffExhausted` | services/LoadBalancerService.cs:86-105 | -1 is returned iff every relay has count >= limit, and then nothing changes |
| `LoadBalancer.SelectFirstEligible` | services/LoadBalancerService.cs:86-99 | a returned relay had count < limit and every relay scanned before it (cyclically from cursor+1) had not; afterwards exactly its counter grew by one and the cursor equals it |
| `LoadBalancer.FirstSelectionScansFromZero` | services/LoadBalancerService.cs:64 | with the initial cursor -1 the lowest eligible index is selected |
| `LoadBalancer.SelectPreservesBounded` | services/LoadBalancerService.cs:92-97 | if 0 <= count <= limit for every relay before a call, it still holds afterwards |
| `LoadBalancer.RoundRobinTwoRelays` | services/LoadBalancerService.cs:86-105 | two relays with limit 2 are selected 0, 1, 0, 1, then -1 |
| `LoadBalancer.SumIncrement` | services/LoadBalancerService.cs:97 | incrementing one counter raises the total count by one |
| `LoadBalancer.SelectAddsOne` | services/LoadBalancerService.cs:97 | a selection adds exactly one to the total count; a -1 answer adds nothing |
| `LoadBalancer.Decayed` | services/LoadBalancerService.cs:128-132 | a decayed counter is never negative, and for a non-negative limit it never grows |
| `LoadBalancer.Balancer.DecayPass` | services/LoadBalancerService.cs:124-136 | every counter becomes `max(0, count - limit/24)` (C# truncating division); the cursor is untouched; counters stay non-negative |
| `LoadBalancer.Slice` | services/LoadBalancerService.cs:115-128 | the slice is limit/24 rounded toward zero, as C# integer division does, for negative limits too |
| `LoadBalancer.DecayAll` | services/LoadBalancerService.cs:124-132 | a pass decays every counter independently; the result is never negative, and counters within their limits stay within them |
| `LoadBalancer.SmallLimitNeverDecays` | services/LoadBalancerService.cs:115-128 | a relay with limit strictly between -24 and 24 has slice 0 (division truncates toward zero), so decay leaves its counter unchanged |
| `LoadBalancer.DecayTimesClosedForm` | services/LoadBalancerService.cs:122-132 | k passes take k slices off, clamped at 0 |
| `LoadBalancer.DayOfDecayEmpties` | services/LoadBalancerService.cs:115-132 | 24 passes empty a counter within its limit when the limit is a multiple of 24 |
| `LoadBalancer.SumNonNegative` | services/LoadBalancerService.cs:132 | non-negative counters have a non-negative total |
| `LoadBalancer.TotalGap` | services/LoadBalancerService.cs:43-44 | Σ(limit − 1) is the sum of the limits less one per relay |
| `LoadBalancer.Headroom` | services/LoadBalancerService.cs:43-45 | Σ(limit − count − 1) equals Σ(limit − 1) minus the total count |
| `LoadBalancer.Balancer.TotalLimitPerDay` | services/LoadBalancerService.cs:44 | the reported daily total is the sum of the limits less one per relay |
| `LoadBalancer.HeadroomAtMostTotal` | services/LoadBalancerService.cs:43-45 | with non-negative counters, CanSendImmediately <= TotalLimitPerDay |
| `LoadBalancer.Balancer.CanSendImmediately` | services/LoadBalancerService.cs:45 | the reported capacity is the daily total less the counted requests, and never above the daily total |
| `Smtp.DefaultHtml` | services/SmtpService.cs:94 | the default HTML is exactly `<h2>`, the body, `</h2>` |
| `Smtp.Compose` | services/SmtpService.cs:88-96 | the text part is always the body; the HTML part is the caller's, or `<h2>` + body + `</h2>`; the sender is (fromName, from), the recipient ("recipient", to), the subject kept |
| `Smtp.Attempts` | services/SmtpService.cs:40-76 | the loop as a recursive function: the balancer state stays well formed, the attempt list and the call count only grow, a success adds at least one attempt, and every entry is a relay index or one of the earlier attempts |
| `Smtp.SendOutcome` | services/SmtpService.cs:32-76 | a whole send: at most min(relays, 1000) balancer calls, success iff some attempt delivered, total count grown by exactly the number of attempts, each relay's counter grown by exactly the number of attempts made through it, counters kept within their limits; a failed send made min(relays, 1000) attempts or left every relay at its limit |
| `Smtp.AttemptsGiveUpOnlyWhenDone` | services/SmtpService.cs:42-72 | failover: after a failed attempt the loop asks again, so a send without delivery ended only after min(relays, 1000) failed attempts or when every relay was at its limit (the -1 break) |
| `Smtp.AttemptsBounded` | services/SmtpService.cs:40-50 | the balancer is asked at most min(relays, 1000) times, at most once more than there were attempts; earlier attempts are kept in order |
| `Smtp.AttemptsSentIffDelivered` | services/SmtpService.cs:49-76 | Send reports success iff some attempt delivered; every attempt but the last failed; after a success the balancer is not asked again |
| `Smtp.AttemptsConsumeQuota` | services/SmtpService.cs:49-72 | the total count grows by exactly the number of transport attempts: failed attempts are not refunded |
| `Smtp.AttemptsChargeAttemptedRelays` | services/SmtpService.cs:49-56 | every attempt goes through the relay the balancer counted it against: each relay's counter grows by exactly the number of attempts made through it |
| `Smtp.AttemptsPreserveBounded` | services/SmtpService.cs:49 | if every counter is within its limit before a send, it still is afterwards |
| `Smtp.ExhaustedSendsNothing` | services/SmtpService.cs:49-50 | with every relay at its limit, Send fails without a transport attempt and changes no counter |
| `Smtp.SameRelayRetried` | services/SmtpService.cs:44-49 | the same relay can be attempted twice in one Send, because the balancer is not told about failures |
| `Smtp.FailoverCountsBoth` | services/SmtpService.cs:49-72 | first relay fails and second delivers: Send succeeds and quota is counted on both |
| `Smtp.Send` | services/SmtpService.cs:32-77 | the loop (safe counter, used-relay list, -1 break, return on success) ends with the result and balancer state of `SendOutcome` |
| `Smtp.SendFields` | services/SmtpService.cs:79-99 | composes the message and sends it; result and balancer state as `SendOutcome` of the composed message |
| `MasterAccounts.IsValidNow` | services/MasterAccountsService.cs:18-20 | for instants strictly between DateTime.MinValue and MaxValue: valid iff (no lower bound or lower < now) and (no upper bound or now < upper) |
| `MasterAccounts.WindowBoundsExclusive` | services/MasterAccountsService.cs:19-20 | at the instant of either bound the account is invalid |
| `MasterAccounts.AnyMatches` | services/MasterAccountsService.cs:58-60 | the scan accepts only if some account in the list is valid now and holds the digest |
| `MasterAccounts.AnyMatchesIff` | services/MasterAccountsService.cs:58-60 | the scan accepts iff some account is valid now and holds the digest |
| `MasterAccounts.AnyMatchesOrderIndependent` | services/MasterAccountsService.cs:58 | reordering the accounts does not change the verdict |
| `MasterAccounts.IsValid` | services/MasterAccountsService.cs:55-60 | a key is accepted iff it decodes and some account valid now holds its digest; a key that does not decode is an error, and one that decodes never is; with no accounts a decodable key gives false |
| `MasterAccounts.OutOfWindowKeyRejected` | services/MasterAccountsService.cs:60 | a key matching only expired or not-yet-valid accounts is rejected |
| `MasterAccounts.ParseAccount` | services/MasterAccountsService.cs:30-48 | parsing succeeds iff the digest decodes and every present bound parses; absent bounds stay absent |
| `MasterAccounts.ParseAccounts` | services/MasterAccountsService.cs:30-49 | all accounts parse, in order and one for one, or the whole parse fails |

## Left out

- Concurrency: the static mutex, the ignored result of `WaitOne(100)`, and the sharing of the
  static cursor between balancer instances. The model has one balancer with single-threaded
  methods and the cursor as a field.
  - The decay loop (services/LoadBalancerService.cs:124-132) takes no mutex, so a decrement can
    race the increment at :97 and lose one of the two updates; the model runs them one after
    the other.
  - When `WaitOne(100)` (:72) times out, the selection still runs and counts, and then
    `ReleaseMutex` (:109) throws because the thread does not own the mutex. That exception
    leaves `Send` from services/SmtpService.cs:49, outside its `try`, after a counter was
    already incremented. The model never times out, so this path is absent.
- The background task's timing: the hourly delay, the cancellation token and the endless
  loop. One pass of it is `DecayPass`; repeated passes are `DecayTimes`.
- The mail transport (connect with STARTTLS, authenticate, send, disconnect, TLS settings,
  the 5-second timeout) and the building of MIME bodies. Delivery is the `Transport` oracle.
  The relay's host and credentials are not modelled. The relay count is the balancer's,
  because both arrays come from the same configured list.
- SHA-512, base64 decoding, `DateTime.Parse` and `DateTime.UtcNow` are parameters. The model
  reads the clock once (`now`), but `IsValidNow` reads it twice.
- The key-abbreviation logging in `IsValid`, and all other logging.
- HTTP, dependency injection and configuration plumbing: api/Program.cs,
  api/Controllers/MailController.cs, services/SettingsProviderService.cs,
  services/EnvironmentProvider.cs and the data classes under services/Models/.
- `Send(SendMailRequest)` (services/SmtpService.cs:101-102) is not modelled. It reads
  `request.HtmlBody`, which services/Models/SendMailRequest.cs does not declare.
- The limits endpoint's "sent in the last 24 hours" value is not modelled. It uses
  `LoadBalancerService.SafetyGap` (api/Controllers/MailController.cs:32), which
  services/LoadBalancerService.cs does not define.
- `TotalLimitPerDay` and `CanSendImmediately` are sums over unbounded integers. The checked
  32-bit overflow of `Enumerable.Sum` is not modelled.
- `SelectAndCount` and `DecayPass` use unbounded integers for the counters. A counter below its
  limit cannot overflow when incremented. Decay with a negative configured limit adds to a
  counter; that counter could in principle wrap after very many passes, and this is not modelled.
- The relay `Id` stored in each `ServerInfo` equals its index and is not used by any
  operation, so it is not modelled.
