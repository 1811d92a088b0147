/**
  The weather sensor: the user-agent text it sends, and the retry schedule of
  its main loop. A download is reduced to its outcome and a sleep to the
  number of seconds chosen, so the loop becomes a map from a sequence of
  download outcomes to the sequence of sleeps between them.
*/
module Weather {
  import opened Wrappers

  /** The command-line configuration (its parsing and defaults are not modelled). */
  datatype Cli = Cli(
    stationId: string,
    interval: nat,
    summaryFile: Option<string>,
    appName: string,
    appVersion: string,
    appUrl: string,
    adminEmail: string)

  /** What weather.gov asks a client to identify itself with. */
  datatype UserAgent = UserAgent(appName: string, appVersion: string, appUrl: string, adminEmail: string)

  /** `UserAgent::from_cli`: the four identification fields, copied unchanged. */
  function FromCli(cli: Cli): (ua: UserAgent)
    ensures ua.appName == cli.appName && ua.appVersion == cli.appVersion
    ensures ua.appUrl == cli.appUrl && ua.adminEmail == cli.adminEmail
  {
    UserAgent(cli.appName, cli.appVersion, cli.appUrl, cli.adminEmail)
  }

  /** `UserAgent`'s `Display`: `name/version (url; email)`. */
  function Render(ua: UserAgent): (s: string)
    ensures |s| == |ua.appName| + |ua.appVersion| + |ua.appUrl| + |ua.adminEmail| + 6
    ensures s[..|ua.appName| + 1] == ua.appName + "/"
    ensures s[|s| - 1] == ')'
  {
    ua.appName + "/" + ua.appVersion + " (" + ua.appUrl + "; " + ua.adminEmail + ")"
  }

  /** The text before the first `/`: the product name of a user-agent header. */
  function ProductName(s: string): (name: string)
    ensures name <= s
    ensures '/' !in name
    ensures |name| < |s| ==> s[|name|] == '/'
  {
    if s == [] || s[0] == '/' then [] else [s[0]] + ProductName(s[1..])
  }

  /** When the application name has no `/`, it is recovered from the rendered header. */
  lemma {:induction false} ProductNameOfRender(ua: UserAgent)
    requires '/' !in ua.appName
    ensures ProductName(Render(ua)) == ua.appName
  {
    var s := Render(ua);
    var name := ProductName(s);
    var n := |ua.appName|;
    assert s[..n + 1] == ua.appName + "/";
    assert s[n] == '/';
    assert name == s[..|name|];
  }

  /** The header the sensor sends, built from the configuration. */
  lemma UserAgentOfCli(cli: Cli)
    ensures Render(FromCli(cli)) == cli.appName + "/" + cli.appVersion + " (" + cli.appUrl + "; " + cli.adminEmail + ")"
  {
  }

  /** The first retry delay, in seconds. */
  const ErrorIntervalInit: nat := 15

  /** The outcome of one download; the temperature it yields is not modelled. */
  datatype Download = Downloaded | Failed

  function Pow2(k: nat): (p: nat)
    ensures p >= 1
  {
    if k == 0 then 1 else 2 * Pow2(k - 1)
  }

  /** The delay before the retry that follows `k` consecutive failures. */
  function RetryDelay(k: nat): nat {
    ErrorIntervalInit * Pow2(k)
  }

  /** How many downloads at the end of `outcomes` failed in a row. */
  function TrailingFailures(outcomes: seq<Download>): (n: nat)
    ensures n <= |outcomes|
    ensures forall i :: |outcomes| - n <= i < |outcomes| ==> outcomes[i] == Failed
    ensures n < |outcomes| ==> outcomes[|outcomes| - 1 - n] == Downloaded
  {
    if outcomes == [] || outcomes[|outcomes| - 1] == Downloaded then 0
    else
      var front := outcomes[..|outcomes| - 1];
      var m := TrailingFailures(front);
      assert forall i :: |outcomes| - (m + 1) <= i < |outcomes| ==> outcomes[i] == Failed by {
        forall i | |outcomes| - (m + 1) <= i < |outcomes|
          ensures outcomes[i] == Failed
        {
          if i < |front| {
            assert outcomes[i] == front[i];
          }
        }
      }
      m + 1
  }

  /**
    The schedule in closed form: after a success the sensor sleeps for the
    configured interval; after a failure, for 15 seconds doubled once for every
    failure immediately before it.
  */
  function Sleeps(interval: nat, outcomes: seq<Download>): (sleeps: seq<nat>)
    ensures |sleeps| == |outcomes|
  {
    seq(|outcomes|, i requires 0 <= i < |outcomes| =>
      if outcomes[i] == Downloaded then interval else RetryDelay(TrailingFailures(outcomes[..i])))
  }

  lemma SleepsSnoc(interval: nat, outcomes: seq<Download>, o: Download)
    ensures Sleeps(interval, outcomes + [o])
         == Sleeps(interval, outcomes) + [if o == Downloaded then interval else RetryDelay(TrailingFailures(outcomes))]
  {
    var longer := outcomes + [o];
    assert longer[..|outcomes|] == outcomes;
    forall i | 0 <= i < |outcomes|
      ensures longer[..i] == outcomes[..i]
    {
    }
  }

  /**
    The main loop, run over a finite prefix of download outcomes: the sleeps it
    chooses, and its retry delay at the end.
  */
  method Schedule(interval: nat, outcomes: seq<Download>) returns (sleeps: seq<nat>, errorCurr: nat)
    ensures sleeps == Sleeps(interval, outcomes)
    ensures errorCurr == RetryDelay(TrailingFailures(outcomes))
  {
    var errorInit := ErrorIntervalInit;
    errorCurr := errorInit;
    sleeps := [];
    var k := 0;
    while k < |outcomes|
      invariant k <= |outcomes|
      invariant sleeps == Sleeps(interval, outcomes[..k])
      invariant errorCurr == RetryDelay(TrailingFailures(outcomes[..k]))
    {
      var sleep: nat;
      assert outcomes[..k + 1] == outcomes[..k] + [outcomes[k]];
      SleepsSnoc(interval, outcomes[..k], outcomes[k]);
      match outcomes[k] {
        case Failed =>
          sleep := errorCurr;
          errorCurr := errorCurr * 2;
        case Downloaded =>
          sleep := interval;
          errorCurr := errorInit;
      }
      sleeps := sleeps + [sleep];
      k := k + 1;
    }
    assert outcomes[..k] == outcomes;
  }

  /** A success clears the failure count, whatever came before it. */
  lemma {:induction false} TrailingFailuresAfterSuccess(history: seq<Download>, later: seq<Download>)
    ensures TrailingFailures(history + [Downloaded] + later) == TrailingFailures(later)
  {
    var all := history + [Downloaded] + later;
    if later == [] {
      assert all == history + [Downloaded];
    } else {
      var front := later[..|later| - 1];
      assert all[..|all| - 1] == history + [Downloaded] + front;
      TrailingFailuresAfterSuccess(history, front);
    }
  }

  /**
    After a success the schedule restarts: the sleeps that follow are those of a
    freshly started sensor given the later outcomes, so the failure history
    before the success has no influence.
  */
  lemma ResetAfterSuccess(interval: nat, history: seq<Download>, later: seq<Download>)
    ensures Sleeps(interval, history + [Downloaded] + later)[|history| + 1..] == Sleeps(interval, later)
  {
    var all := history + [Downloaded] + later;
    var sleeps, tail := Sleeps(interval, all), Sleeps(interval, later);
    forall i | 0 <= i < |later|
      ensures sleeps[|history| + 1 + i] == tail[i]
    {
      var at := |history| + 1 + i;
      assert all[at] == later[i];
      assert all[..at] == history + [Downloaded] + later[..i];
      TrailingFailuresAfterSuccess(history, later[..i]);
    }
    assert sleeps[|history| + 1..] == tail;
  }

  /** A failure directly after a failure sleeps twice as long. */
  lemma FailureDoubles(interval: nat, outcomes: seq<Download>, i: nat)
    requires 0 < i < |outcomes|
    requires outcomes[i - 1] == Failed && outcomes[i] == Failed
    ensures Sleeps(interval, outcomes)[i] == 2 * Sleeps(interval, outcomes)[i - 1]
  {
  }

  function Failures(n: nat): (fs: seq<Download>)
    ensures |fs| == n && forall i :: 0 <= i < n ==> fs[i] == Failed
  {
    seq(n, _ => Failed)
  }

  lemma {:induction false} TrailingFailuresOfRun(start: seq<Download>, j: nat)
    requires start == [] || start[|start| - 1] == Downloaded
    ensures TrailingFailures(start + Failures(j)) == j
  {
    if j > 0 {
      var all := start + Failures(j);
      assert all[..|all| - 1] == start + Failures(j - 1);
      TrailingFailuresOfRun(start, j - 1);
    }
  }

  /**
    `n` failures in a row, at start or after a success, sleep 15, 30, 60, ...,
    15 * 2^(n-1) seconds.
  */
  lemma FailureRun(interval: nat, start: seq<Download>, n: nat)
    requires start == [] || start[|start| - 1] == Downloaded
    ensures forall j :: 0 <= j < n ==> Sleeps(interval, start + Failures(n))[|start| + j] == ErrorIntervalInit * Pow2(j)
  {
    var all := start + Failures(n);
    forall j | 0 <= j < n
      ensures Sleeps(interval, all)[|start| + j] == ErrorIntervalInit * Pow2(j)
    {
      assert all[..|start| + j] == start + Failures(j);
      TrailingFailuresOfRun(start, j);
    }
  }

  /** Within a run of failures the sleeps strictly increase. */
  lemma FailureRunIncreases(interval: nat, start: seq<Download>, n: nat, j: nat, k: nat)
    requires start == [] || start[|start| - 1] == Downloaded
    requires j < k < n
    ensures Sleeps(interval, start + Failures(n))[|start| + j] < Sleeps(interval, start + Failures(n))[|start| + k]
  {
    FailureRun(interval, start, n);
    Pow2Increases(j, k);
  }

  lemma {:induction false} Pow2Increases(j: nat, k: nat)
    requires j < k
    ensures Pow2(j) < Pow2(k)
  {
    if j + 1 < k {
      Pow2Increases(j, k - 1);
    }
  }

  lemma {:induction false} Pow2Add(a: nat, b: nat)
    ensures Pow2(a + b) == Pow2(a) * Pow2(b)
  {
    if b > 0 {
      Pow2Add(a, b - 1);
    }
  }

  /**
    The source keeps the delay in a `u64`: the delays after up to 60
    consecutive failures fit, and the one after 61 does not.
  */
  lemma RetryDelayFitsU64(k: nat)
    ensures RetryDelay(k) < 0x1_0000_0000_0000_0000 <==> k <= 60
  {
    assert Pow2(10) == 1024;
    Pow2Add(10, 10);
    Pow2Add(20, 20);
    Pow2Add(40, 20);
    assert Pow2(60) == 0x1000_0000_0000_0000;
    if k < 60 {
      Pow2Increases(k, 60);
    } else if k > 61 {
      Pow2Increases(61, k);
    }
  }

  /** Three failures and then a success: retries after 15, 30 and 60 seconds, then the polling interval. */
  lemma ThreeFailuresThenSuccess(interval: nat)
    ensures Sleeps(interval, [Failed, Failed, Failed, Downloaded]) == [15, 30, 60, interval]
  {
  }
}
