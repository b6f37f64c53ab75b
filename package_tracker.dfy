/**
  * Package tracking: the size of a multi-session package, read from an explicit
  * field or from the numbers written before "mao(s)"/"pe(s)" in the service name,
  * the completed-session count per (client, service), and cycle progress.
  */
module PackageTracker {
  import opened Wrappers
  import opened TimeUtils
  import opened Records

  /** The end of the run of digits that starts at `i`. */
  function DigitRunEnd(s: string, i: nat): (j: nat)
    requires i <= |s|
    ensures i <= j <= |s| && (j < |s| ==> !IsDigit(s[j]))
    ensures forall p :: i <= p < j ==> IsDigit(s[p])
    decreases |s| - i
  {
    if i < |s| && IsDigit(s[i]) then DigitRunEnd(s, i + 1) else i
  }

  /** The end of the run of white space that starts at `i`. */
  function SpaceRunEnd(s: string, i: nat): (j: nat)
    requires i <= |s|
    ensures i <= j <= |s| && (j < |s| ==> !IsSpace(s[j]))
    ensures forall p :: i <= p < j ==> IsSpace(s[p])
    decreases |s| - i
  {
    if i < |s| && IsSpace(s[i]) then SpaceRunEnd(s, i + 1) else i
  }

  predicate StartsWithAt(s: string, i: nat, w: string) {
    i + |w| <= |s| && s[i..i + |w|] == w
  }

  /** Past an optional 's' at `e`. */
  function OptionalS(s: string, e: nat): nat {
    if e < |s| && s[e] == 's' then e + 1 else e
  }

  /** The end of `maos?` or `pes?` at `k`, if one of them is there. */
  function UnitEnd(s: string, k: nat): (r: Option<nat>)
    requires k <= |s|
    ensures r.Some? ==> k < r.value <= |s|
  {
    if StartsWithAt(s, k, "mao") then Some(OptionalS(s, k + 3))
    else if StartsWithAt(s, k, "pe") then Some(OptionalS(s, k + 2))
    else None
  }

  /** One match of `(\d+)\s*(maos?|pes?)`: the number captured and where the match ends. */
  datatype Match = Match(count: nat, end: nat)

  /**
    * A way the regular expression can read `s` from `i`: `\d+` takes
    * `s[i..j]`, `\s*` takes `s[j..k]`, and "mao" or "pe" begins at `k`.
    */
  predicate RegexSplit(s: string, i: nat, j: nat, k: nat) {
    && i < j <= k <= |s|
    && AllDigits(s[i..j])
    && (forall p :: j <= p < k ==> IsSpace(s[p]))
    && (StartsWithAt(s, k, "mao") || StartsWithAt(s, k, "pe"))
  }

  lemma {:induction false} DigitRunEndAt(s: string, i: nat, j: nat)
    requires i <= j <= |s| && (forall p :: i <= p < j ==> IsDigit(s[p])) && (j < |s| ==> !IsDigit(s[j]))
    ensures DigitRunEnd(s, i) == j
    decreases j - i
  {
    if i < j {
      DigitRunEndAt(s, i + 1, j);
    }
  }

  lemma {:induction false} SpaceRunEndAt(s: string, j: nat, k: nat)
    requires j <= k <= |s| && (forall p :: j <= p < k ==> IsSpace(s[p])) && (k < |s| ==> !IsSpace(s[k]))
    ensures SpaceRunEnd(s, j) == k
    decreases k - j
  {
    if j < k {
      SpaceRunEndAt(s, j + 1, k);
    }
  }

  /**
    * Backtracking cannot help the regular expression: every split it can
    * find takes the longest run of digits and then the longest run of
    * spaces, since a shorter run leaves a digit or a space where the unit
    * word must begin.
    */
  lemma SplitIsLongest(s: string, i: nat, j: nat, k: nat)
    requires RegexSplit(s, i, j, k)
    ensures DigitRunEnd(s, i) == j && SpaceRunEnd(s, j) == k && UnitEnd(s, k).Some?
  {
    assert s[k] == s[k..k + 2][0];
    assert s[k] == 'm' || s[k] == 'p';
    forall p | i <= p < j
      ensures IsDigit(s[p])
    {
      assert s[p] == s[i..j][p - i];
    }
    if j < k {
      assert IsSpace(s[j]);
    }
    DigitRunEndAt(s, i, j);
    SpaceRunEndAt(s, j, k);
  }

  /** The regular expression anchored at `i`, reading the longest runs (see MatchAtIsRegex). */
  function MatchAt(s: string, i: nat): (m: Option<Match>)
    requires i <= |s|
    ensures m.Some? ==> i < m.value.end <= |s| && i < |s| && IsDigit(s[i])
  {
    var j := DigitRunEnd(s, i);
    if j == i then None
    else
      var k := SpaceRunEnd(s, j);
      match UnitEnd(s, k)
      case None => None
      case Some(e) =>
        assert AllDigits(s[i..j]) by {
          forall p | 0 <= p < j - i ensures IsDigit(s[i..j][p]) {
            assert s[i..j][p] == s[i + p];
          }
        }
        Some(Match(DecimalValue(s[i..j]), e))
  }

  /**
    * MatchAt is the regular expression: it matches at `i` exactly when some
    * split of digits, spaces and a unit word starts there, and then it
    * captures the digits of that split and ends after the unit word and its
    * optional 's'.
    */
  lemma MatchAtIsRegex(s: string, i: nat)
    requires i <= |s|
    ensures MatchAt(s, i).Some? <==> exists j: nat, k: nat :: RegexSplit(s, i, j, k)
    ensures forall j: nat, k: nat :: RegexSplit(s, i, j, k) ==>
      MatchAt(s, i) == Some(Match(DecimalValue(s[i..j]), UnitEnd(s, k).value))
  {
    var j := DigitRunEnd(s, i);
    var k := SpaceRunEnd(s, j);
    forall j': nat, k': nat | RegexSplit(s, i, j', k')
      ensures MatchAt(s, i) == Some(Match(DecimalValue(s[i..j']), UnitEnd(s, k').value))
    {
      SplitIsLongest(s, i, j', k');
    }
    if MatchAt(s, i).Some? {
      assert AllDigits(s[i..j]) by {
        forall p | 0 <= p < j - i ensures IsDigit(s[i..j][p]) {
          assert s[i..j][p] == s[i + p];
        }
      }
      assert RegexSplit(s, i, j, k);
    }
  }

  /** `regex.exec(nome)` with the global regex's `lastIndex` at `i`: the leftmost match at or after `i`. */
  function NextMatch(s: string, i: nat): (m: Option<Match>)
    requires i <= |s|
    ensures m.Some? ==> i < m.value.end <= |s|
    decreases |s| - i
  {
    if i == |s| then None
    else match MatchAt(s, i)
      case Some(m) => Some(m)
      case None => NextMatch(s, i + 1)
  }

  /** The sum of the numbers of all matches at or after `i`, scanning left to right. */
  function UnitSumFrom(s: string, i: nat): nat
    requires i <= |s|
    decreases |s| - i
  {
    if i == |s| then 0
    else match MatchAt(s, i)
      case Some(m) => m.count + UnitSumFrom(s, m.end)
      case None => UnitSumFrom(s, i + 1)
  }

  function UnitSum(s: string): nat {
    UnitSumFrom(s, 0)
  }

  lemma {:induction false} NextMatchSum(s: string, i: nat)
    requires i <= |s|
    ensures UnitSumFrom(s, i) == match NextMatch(s, i)
      case None => 0
      case Some(m) => m.count + UnitSumFrom(s, m.end)
    decreases |s| - i
  {
    if i < |s| && MatchAt(s, i).None? {
      NextMatchSum(s, i + 1);
    }
  }

  /**
    * The `while (match)` loop of getPacoteTotalByService: adds up the number of
    * every match `regex.exec` finds in the name.
    */
  method SumUnitCounts(name: string) returns (total: nat)
    ensures total == UnitSum(name)
  {
    total := 0;
    NextMatchSum(name, 0);
    var m := NextMatch(name, 0);
    while m.Some?
      invariant m.Some? ==> m.value.end <= |name|
      invariant UnitSum(name) == total + match m
        case None => 0
        case Some(x) => x.count + UnitSumFrom(name, x.end)
      decreases if m.Some? then |name| - m.value.end + 1 else 0
    {
      total := total + m.value.count;
      NextMatchSum(name, m.value.end);
      m := NextMatch(name, m.value.end);
    }
  }

  /** `p` begins a run of digits: the character before it is not a digit. */
  predicate RunStart(s: string, p: nat)
    requires p <= |s|
  {
    p == 0 || !IsDigit(s[p - 1])
  }

  /**
    * The declarative reading of the name scan: every maximal run of digits
    * that is followed (after optional spaces) by a unit word counts once.
    */
  function RunSum(s: string, i: nat): nat
    requires i <= |s|
    decreases |s| - i
  {
    if i == |s| then 0
    else (if RunStart(s, i) && MatchAt(s, i).Some? then MatchAt(s, i).value.count else 0) + RunSum(s, i + 1)
  }

  /** Inside a digit run the anchored match fails exactly when it fails at the run's previous digit. */
  lemma MatchAtInsideRun(s: string, i: nat)
    requires 0 < i < |s| && IsDigit(s[i - 1]) && IsDigit(s[i])
    ensures DigitRunEnd(s, i - 1) == DigitRunEnd(s, i)
    ensures MatchAt(s, i - 1).None? ==> MatchAt(s, i).None?
  {
  }

  /** Between a match's start and end no other digit run begins, so RunSum skips nothing there. */
  lemma {:induction false} RunSumSkip(s: string, i: nat, e: nat)
    requires i < e <= |s| && IsDigit(s[i])
    requires forall p :: i < p < e ==> !(RunStart(s, p) && IsDigit(s[p]))
    ensures RunSum(s, i + 1) == RunSum(s, e)
    decreases e - i
  {
    if i + 1 < e {
      if IsDigit(s[i + 1]) {
        RunSumSkip(s, i + 1, e);
      } else {
        assert MatchAt(s, i + 1).None?;
        RunSumSkipNonDigit(s, i + 1, e);
      }
    }
  }

  lemma {:induction false} RunSumSkipNonDigit(s: string, i: nat, e: nat)
    requires i < e <= |s| && !IsDigit(s[i])
    requires forall p :: i < p < e ==> !(RunStart(s, p) && IsDigit(s[p]))
    ensures RunSum(s, i + 1) == RunSum(s, e)
    decreases e - i
  {
    if i + 1 < e {
      assert RunStart(s, i + 1);
      assert !IsDigit(s[i + 1]);
      RunSumSkipNonDigit(s, i + 1, e);
    }
  }

  /** The characters of a match after its digits are spaces and letters of the unit word, never digits. */
  lemma MatchTail(s: string, i: nat)
    requires i <= |s| && MatchAt(s, i).Some?
    ensures forall p :: DigitRunEnd(s, i) <= p < MatchAt(s, i).value.end ==> !IsDigit(s[p])
  {
    var j := DigitRunEnd(s, i);
    var k := SpaceRunEnd(s, j);
    var e := MatchAt(s, i).value.end;
    forall p | j <= p < e
      ensures !IsDigit(s[p])
    {
      if p >= k {
        if StartsWithAt(s, k, "mao") {
          assert p < k + 3 ==> s[p] == "mao"[p - k];
        } else {
          assert p < k + 2 ==> s[p] == "pe"[p - k];
        }
      }
    }
  }

  /** No digit run begins strictly inside a match, and a match ends on a non-digit. */
  lemma MatchInterior(s: string, i: nat)
    requires i <= |s| && MatchAt(s, i).Some?
    ensures forall p :: i < p < MatchAt(s, i).value.end ==> !(RunStart(s, p) && IsDigit(s[p]))
    ensures !IsDigit(s[MatchAt(s, i).value.end - 1])
  {
    var j := DigitRunEnd(s, i);
    var e := MatchAt(s, i).value.end;
    MatchTail(s, i);
    assert j < e;
    forall p | i < p < e
      ensures !(RunStart(s, p) && IsDigit(s[p]))
    {
      if p < j {
        assert IsDigit(s[p - 1]);
      }
    }
  }

  /** The left-to-right scan and the declarative reading agree from every point where a run can start. */
  lemma {:induction false} UnitSumIsRunSum(s: string, i: nat)
    requires i <= |s|
    requires i == 0 || !IsDigit(s[i - 1]) || MatchAt(s, i - 1).None?
    ensures UnitSumFrom(s, i) == RunSum(s, i)
    decreases |s| - i
  {
    if i < |s| {
      match MatchAt(s, i)
      case Some(m) =>
        assert RunStart(s, i) by {
          if i > 0 && IsDigit(s[i - 1]) {
            MatchAtInsideRun(s, i);
          }
        }
        MatchInterior(s, i);
        RunSumSkip(s, i, m.end);
        UnitSumIsRunSum(s, m.end);
      case None =>
        UnitSumIsRunSum(s, i + 1);
    }
  }

  /** A name without digits names no package units. */
  lemma {:induction false} NoDigitsNoUnits(s: string, i: nat)
    requires i <= |s|
    requires forall p :: 0 <= p < |s| ==> !IsDigit(s[p])
    ensures UnitSumFrom(s, i) == 0
    decreases |s| - i
  {
    if i < |s| {
      NoDigitsNoUnits(s, i + 1);
    }
  }

  /**
    * The explicit package field: the first alias that is not null or
    * undefined, through `Number(...)`. A present but non-numeric alias hides
    * the ones after it, because `??` skips only null and undefined.
    */
  function ExplicitPackageTotal(s: Service): (r: Option<int>)
    ensures s.packageTotal != Absent ==> r == (if s.packageTotal.Num? then Some(s.packageTotal.n) else None)
    ensures s.packageTotal == Absent && s.packageQuantity != Absent ==>
      r == (if s.packageQuantity.Num? then Some(s.packageQuantity.n) else None)
    ensures s.packageTotal == Absent && s.packageQuantity == Absent && s.quantityPackage != Absent ==>
      r == (if s.quantityPackage.Num? then Some(s.quantityPackage.n) else None)
    ensures s.packageTotal == Absent && s.packageQuantity == Absent && s.quantityPackage == Absent ==>
      r == (if s.qtyPackage.Num? then Some(s.qtyPackage.n) else None)
    ensures r.Some? ==> Num(r.value) in [s.packageTotal, s.packageQuantity, s.quantityPackage, s.qtyPackage]
    ensures s.packageTotal == Absent && s.packageQuantity == Absent && s.quantityPackage == Absent && s.qtyPackage == Absent ==> r.None?
  {
    var f :=
      if s.packageTotal != Absent then s.packageTotal
      else if s.packageQuantity != Absent then s.packageQuantity
      else if s.quantityPackage != Absent then s.quantityPackage
      else s.qtyPackage;
    match f
    case Num(n) => Some(n)
    case _ => None
  }

  predicate HasExplicitPackage(s: Service) {
    ExplicitPackageTotal(s).Some? && ExplicitPackageTotal(s).value > 1
  }

  /**
    * getPacoteTotalByService: 0 without a service; the explicit field when it is
    * above 1; else the sum of the units named in the name when above 1; else 0.
    * A package is therefore either absent (0) or has at least two sessions.
    */
  function PackageSize(svc: Option<Service>): (k: int)
    ensures k == 0 || k > 1
    ensures svc.None? ==> k == 0
    ensures svc.Some? && HasExplicitPackage(svc.value) ==> k == ExplicitPackageTotal(svc.value).value
    ensures svc.Some? && !HasExplicitPackage(svc.value) ==> k == (if UnitSum(svc.value.name) > 1 then UnitSum(svc.value.name) else 0)
  {
    match svc
    case None => 0
    case Some(s) =>
      if HasExplicitPackage(s) then ExplicitPackageTotal(s).value
      else if UnitSum(s.name) > 1 then UnitSum(s.name)
      else 0
  }

  /** getPacoteTotalByService as the source runs it, with its `regex.exec` loop. */
  method PackageTotalByService(svc: Option<Service>) returns (k: int)
    ensures k == PackageSize(svc)
  {
    if svc.None? {
      return 0;
    }
    var s := svc.value;
    var explicit := ExplicitPackageTotal(s);
    if explicit.Some? && explicit.value > 1 {
      return explicit.value;
    }
    if s.name == [] {
      return 0;
    }
    var total := SumUnitCounts(s.name);
    k := if total > 1 then total else 0;
  }

  const TwoHandsTwoFeet: string := "2 maos 2 pes"

  lemma TwoHandsMatch()
    ensures MatchAt(TwoHandsTwoFeet, 0) == Some(Match(2, 6))
  {
    var s := TwoHandsTwoFeet;
    assert DigitRunEnd(s, 0) == 1;
    assert SpaceRunEnd(s, 1) == 2;
    assert s[2..5] == "mao";
    assert s[0..1] == "2";
  }

  lemma TwoFeetMatch()
    ensures MatchAt(TwoHandsTwoFeet, 7) == Some(Match(2, 12))
  {
    var s := TwoHandsTwoFeet;
    assert DigitRunEnd(s, 7) == 8;
    assert SpaceRunEnd(s, 8) == 9;
    assert s[9..12] != "mao";
    assert s[9..11] == "pe";
    assert s[7..8] == "2";
  }

  /** The "2 maos 2 pes" service is a four-session package; "manicure" is not a package. */
  lemma NameScenarios(nails: Service, plain: Service)
    requires nails.name == TwoHandsTwoFeet && !HasExplicitPackage(nails)
    requires plain.name == "manicure" && !HasExplicitPackage(plain)
    ensures PackageSize(Some(nails)) == 4
    ensures PackageSize(Some(plain)) == 0
  {
    var s := TwoHandsTwoFeet;
    TwoHandsMatch();
    TwoFeetMatch();
    assert UnitSumFrom(s, 12) == 0;
    assert UnitSumFrom(s, 7) == 2;
    assert MatchAt(s, 6).None?;
    assert UnitSumFrom(s, 6) == 2;
    assert UnitSum(s) == 4;
    NoDigitsNoUnits(plain.name, 0);
  }

  /** The count key `${cliente_id}:${servico_id}`. */
  function PackageKey(clientId: Id, serviceId: Id): string {
    clientId + ":" + serviceId
  }

  /** Ids without ':' never collide in a count key. */
  lemma PackageKeyInjective(c1: Id, s1: Id, c2: Id, s2: Id)
    requires ':' !in c1 && ':' !in c2
    requires PackageKey(c1, s1) == PackageKey(c2, s2)
    ensures c1 == c2 && s1 == s2
  {
    UpToColonOf(c1, s1);
    UpToColonOf(c2, s2);
    assert c1 + [':'] + s1 == PackageKey(c1, s1);
    assert c2 + [':'] + s2 == PackageKey(c2, s2);
  }

  /** An appointment that pacoteConcluidosByKey counts: completed, with both ids, for a package service. */
  predicate CountsTowardPackage(a: Appointment, services: seq<Service>) {
    a.status == Completed && a.clientId != "" && a.serviceId != ""
    && PackageSize(JoinedService(a, services)) != 0
  }

  /** The number of counted appointments whose key is `key`. */
  function CompletedCount(appts: seq<Appointment>, key: string, services: seq<Service>): nat {
    if appts == [] then 0
    else
      CompletedCount(appts[..|appts| - 1], key, services)
      + (var a := appts[|appts| - 1];
         if CountsTowardPackage(a, services) && PackageKey(a.clientId, a.serviceId) == key then 1 else 0)
  }

  /** Counting is additive over the appointment list: every further counted session adds exactly one. */
  lemma {:induction false} CompletedCountAppend(a: seq<Appointment>, b: seq<Appointment>, key: string, services: seq<Service>)
    ensures CompletedCount(a + b, key, services) == CompletedCount(a, key, services) + CompletedCount(b, key, services)
    decreases |b|
  {
    if b != [] {
      assert (a + b)[..|a + b| - 1] == a + b[..|b| - 1];
      CompletedCountAppend(a, b[..|b| - 1], key, services);
    } else {
      assert a + b == a;
    }
  }

  function CountOf(counts: map<string, nat>, key: string): nat {
    if key in counts then counts[key] else 0
  }

  /**
    * pacoteConcluidosByKey: one pass over all appointments, adding one to the
    * entry of the key of each counted appointment. A key is present exactly
    * when its count is positive.
    */
  method CountCompleted(appts: seq<Appointment>, services: seq<Service>) returns (counts: map<string, nat>)
    ensures forall key :: key in counts <==> CompletedCount(appts, key, services) > 0
    ensures forall key :: CountOf(counts, key) == CompletedCount(appts, key, services)
  {
    counts := map[];
    var i := 0;
    while i < |appts|
      invariant 0 <= i <= |appts|
      invariant forall key :: key in counts <==> CompletedCount(appts[..i], key, services) > 0
      invariant forall key :: CountOf(counts, key) == CompletedCount(appts[..i], key, services)
    {
      var item := appts[i];
      assert appts[..i + 1][..i] == appts[..i];
      if item.status == Completed && item.clientId != "" && item.serviceId != "" {
        var total := PackageTotalByService(JoinedService(item, services));
        if total != 0 {
          var key := PackageKey(item.clientId, item.serviceId);
          counts := counts[key := CountOf(counts, key) + 1];
        }
      }
      i := i + 1;
    }
    assert appts[..i] == appts;
  }

  /** progressoPacoteAtual: 0 before the first session, then 1..k repeating. */
  function Progress(n: nat, k: nat): (p: nat)
    requires n == 0 || k > 0
    ensures p <= k
    ensures n == 0 <==> p == 0
  {
    if n > 0 then (n - 1) % k + 1 else 0
  }

  /** pacoteConcluido: only a whole number of cycles, at least one, is complete. */
  predicate Complete(n: nat, k: nat): (c: bool)
    ensures c ==> 0 < k <= n
  {
    k > 0 && n > 0 && n % k == 0
  }

  /** Progress repeats with the package size once a session has been completed. */
  lemma ProgressPeriodic(n: nat, k: nat)
    requires n > 0 && k > 0
    ensures Progress(n + k, k) == Progress(n, k)
  {
    var q, r := (n - 1) / k, (n - 1) % k;
    assert n + k - 1 == (q + 1) * k + r;
    ModUnique(n + k - 1, k, q + 1, r);
  }

  /** A package cycle is complete exactly when the progress shows every session ticked. */
  lemma CompleteIffFullCycle(n: nat, k: nat)
    requires n > 0 && k > 0
    ensures Complete(n, k) <==> Progress(n, k) == k
  {
    var q, r := (n - 1) / k, (n - 1) % k;
    if r + 1 == k {
      assert n == (q + 1) * k + 0;
      ModUnique(n, k, q + 1, 0);
    } else {
      assert n == q * k + (r + 1);
      ModUnique(n, k, q, r + 1);
    }
  }

  /** At zero sessions the progress is 0 but one cycle later it is `k`: periodicity needs `n > 0`. */
  lemma ProgressNotPeriodicAtZero(k: nat)
    requires k > 0
    ensures Progress(0, k) == 0 && Progress(k, k) == k
  {
  }

  /** Five sessions of a four-session package: progress 1, not complete; eight: progress 4, complete. */
  lemma ProgressScenarios()
    ensures Progress(5, 4) == 1 && !Complete(5, 4)
    ensures Progress(8, 4) == 4 && Complete(8, 4)
  {
  }

  /** What an agenda card shows about a package. */
  datatype Badge = Badge(progress: nat, total: nat, complete: bool)

  /**
    * The package expressions of an agenda card: size, key, completed count,
    * progress and completion. The progress never exceeds the size and is
    * full whenever the card says the package is complete.
    */
  function PackageBadge(item: Appointment, services: seq<Service>, counts: map<string, nat>): (b: Badge)
    ensures b.progress <= b.total
    ensures b.total == PackageSize(JoinedService(item, services))
    ensures b.complete ==> b.total > 0 && b.progress == b.total
    ensures b.total == 0 ==> b.progress == 0 && !b.complete
    ensures var n := if b.total != 0 && item.clientId != "" && item.serviceId != ""
                     then CountOf(counts, PackageKey(item.clientId, item.serviceId)) else 0;
      b.progress == Progress(n, b.total) && b.complete == Complete(n, b.total)
  {
    var total := PackageSize(JoinedService(item, services));
    var key := if total != 0 && item.clientId != "" && item.serviceId != "" then PackageKey(item.clientId, item.serviceId) else "";
    var n := if key != "" then CountOf(counts, key) else 0;
    if n > 0 then CompleteIffFullCycle(n, total); Badge(Progress(n, total), total, Complete(n, total))
    else Badge(Progress(n, total), total, Complete(n, total))
  }
}
