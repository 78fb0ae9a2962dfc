/** Settling a round of bets against the banker's deposit: bets are collected, winners are paid in the
    order of the bets while the deposit lasts, and taxes are taken.  Tax rules are arbitrary functions. */
module Settlement {

  datatype Bet = Bet(uid: string, present: int, count: nat)

  datatype Report = Report(pay: int, actual: int, should: int, factor: real)

  datatype Preset = Preset(pid: int, prior: int, factor: real)

  datatype Group = Group(groupBy: seq<int>, factor: real)

  /** `presets` in the order of their keys, the pids. */
  datatype Config = Config(presets: seq<Preset>, groups: map<int, Group>)

  type Reports = map<string, Report>

  const NO_REPORT := Report(0, 0, 0, 0.0)

  /** The round in which team bets are given back. */
  const LOTTO := 100

  // ---------- What a bet wins ----------

  predicate IsPid(config: Config, pid: int) {
    (exists p <- config.presets :: p.pid == pid) || pid in config.groups
  }

  /** The presets of one betting field, in order (get_present_bysetbet). */
  function OfField(presets: seq<Preset>, field: int): (r: seq<Preset>)
    ensures forall p :: p in r <==> p in presets && p.prior == field
  {
    if presets == [] then []
    else (if presets[0].prior == field then [presets[0]] else []) + OfField(presets[1..], field)
  }

  predicate Hit(config: Config, field: int, result: int) {
    exists p <- config.presets :: p.prior == field && p.pid == result
  }

  /** A double converted to an integer loses its fraction. */
  function Truncated(n: int, d: int): int
    requires d > 0
  {
    if n >= 0 then n / d else -(-n / d)
  }

  /** The factor is rounded to one decimal; what is owed is cut to an integer. */
  function Owed(count: nat, factor: real): int {
    Truncated(count * (factor * 10.0 + 0.5).Floor, 10)
  }

  // ---------- What is owed, without the arithmetic ----------

  /** `k` is the number of tenths nearest to `factor`, the upper one of two. */
  ghost predicate NearestTenths(factor: real, k: int) {
    k as real - 0.5 <= 10.0 * factor < k as real + 0.5
  }

  /** `owed` whole coins are in `tenths` tenths of a coin, with less than one coin left over on the side of zero. */
  predicate WholeCoins(tenths: int, owed: int) {
    if tenths >= 0 then 10 * owed <= tenths < 10 * owed + 10 else 10 * owed - 10 < tenths <= 10 * owed
  }

  ghost predicate IsOwed(count: nat, factor: real, owed: int) {
    exists k: int :: NearestTenths(factor, k) && WholeCoins(count * k, owed)
  }

  /** Half up for the factor, towards zero for the coins. */
  lemma OwedExactly(count: nat, factor: real, owed: int)
    ensures Owed(count, factor) == owed <==> IsOwed(count, factor, owed)
  {
    var k := (factor * 10.0 + 0.5).Floor;
    assert NearestTenths(factor, k);
    CoinsExactly(count * k, owed);
    forall j: int | NearestTenths(factor, j) ensures j == k {
    }
  }

  lemma CoinsExactly(tenths: int, owed: int)
    ensures Truncated(tenths, 10) == owed <==> WholeCoins(tenths, owed)
  {
  }

  /** The sides of zero: a factor not below zero owes nothing below zero, a negative one nothing above it. */
  lemma OwedSign(count: nat, factor: real)
    ensures factor >= 0.0 ==> Owed(count, factor) >= 0
    ensures factor < 0.0 ==> Owed(count, factor) <= 0
  {
    var k := (factor * 10.0 + 0.5).Floor;
    if factor >= 0.0 {
      assert k >= 0 && count * k >= 0;
    } else {
      assert k <= 0 && count * k <= 0;
    }
  }

  datatype Win = Win(uid: string, owed: int, factor: real)

  function GroupWins(config: Config, bet: Bet, result: int, group: Group, n: nat): seq<Win>
    requires n <= |group.groupBy|
  {
    if n == 0 then []
    else
      var before := GroupWins(config, bet, result, group, n - 1);
      if Hit(config, group.groupBy[n - 1], result) then
        before + [Win(bet.uid, Owed(bet.count, group.factor), group.factor)]
      else before
  }

  /** The first preset of the field that was drawn. */
  function FirstDrawn(presets: seq<Preset>, result: int): seq<Preset> {
    if presets == [] then []
    else if presets[0].pid == result then [presets[0]] else FirstDrawn(presets[1..], result)
  }

  /** A group bet wins once for each of its fields that was drawn, another bet at most once. */
  function WinsOf(config: Config, result: int, bet: Bet): seq<Win> {
    if bet.present in config.groups then
      var group := config.groups[bet.present];
      GroupWins(config, bet, result, group, |group.groupBy|)
    else
      var drawn := FirstDrawn(OfField(config.presets, bet.present), result);
      seq(|drawn|, i requires 0 <= i < |drawn| => Win(bet.uid, Owed(bet.count, drawn[i].factor), drawn[i].factor))
  }

  function WinsOfAll(config: Config, result: int, bets: seq<Bet>): seq<Win> {
    if bets == [] then []
    else WinsOfAll(config, result, bets[..|bets| - 1]) + WinsOf(config, result, bets[|bets| - 1])
  }

  lemma {:induction false} DrawnWhen(presets: seq<Preset>, result: int)
    ensures FirstDrawn(presets, result) != [] <==> exists p :: p in presets && p.pid == result
  {
    if presets != [] {
      DrawnWhen(presets[1..], result);
      assert forall p :: p in presets <==> p == presets[0] || p in presets[1..];
    }
  }

  lemma {:induction false} GroupWinsWhen(config: Config, bet: Bet, result: int, group: Group, n: nat)
    requires n <= |group.groupBy|
    ensures GroupWins(config, bet, result, group, n) != []
       <==> exists j :: 0 <= j < n && Hit(config, group.groupBy[j], result)
  {
    if n > 0 {
      GroupWinsWhen(config, bet, result, group, n - 1);
    }
  }

  /** A bet wins exactly when its field was drawn, or for a group bet one of the group's fields. */
  lemma WinsWhen(config: Config, result: int, bet: Bet)
    ensures WinsOf(config, result, bet) != [] <==>
      if bet.present in config.groups then
        var fields := config.groups[bet.present].groupBy;
        exists j :: 0 <= j < |fields| && Hit(config, fields[j], result)
      else
        Hit(config, bet.present, result)
  {
    if bet.present in config.groups {
      var group := config.groups[bet.present];
      GroupWinsWhen(config, bet, result, group, |group.groupBy|);
    } else {
      DrawnWhen(OfField(config.presets, bet.present), result);
    }
  }

  /** The place of the preset that decides a bet on `field`: the first one of the field that was drawn. */
  predicate Decides(config: Config, field: int, result: int, i: nat) {
    && i < |config.presets| && config.presets[i].prior == field && config.presets[i].pid == result
    && forall j :: 0 <= j < i ==> config.presets[j].prior != field || config.presets[j].pid != result
  }

  lemma {:induction false} FirstDrawnIs(presets: seq<Preset>, field: int, result: int, i: nat)
    requires i < |presets| && presets[i].prior == field && presets[i].pid == result
    requires forall j :: 0 <= j < i ==> presets[j].prior != field || presets[j].pid != result
    ensures FirstDrawn(OfField(presets, field), result) == [presets[i]]
    decreases i
  {
    if i > 0 {
      FirstDrawnIs(presets[1..], field, result, i - 1);
      if presets[0].prior == field {
        assert OfField(presets, field)[1..] == OfField(presets[1..], field);
      } else {
        assert OfField(presets, field) == OfField(presets[1..], field);
      }
    } else {
      assert OfField(presets, field)[0] == presets[0];
    }
  }

  /** The fields of a group that were drawn. */
  function DrawnFields(config: Config, result: int, fields: seq<int>): set<nat> {
    set j: nat | j < |fields| && Hit(config, fields[j], result)
  }

  lemma {:induction false} GroupWinsAre(config: Config, bet: Bet, result: int, group: Group, n: nat)
    requires n <= |group.groupBy|
    ensures var wins := GroupWins(config, bet, result, group, n);
            && |wins| == |DrawnFields(config, result, group.groupBy[..n])|
            && forall w <- wins :: w == Win(bet.uid, Owed(bet.count, group.factor), group.factor)
  {
    hide Hit, Owed;
    if n > 0 {
      GroupWinsAre(config, bet, result, group, n - 1);
      var fields := group.groupBy;
      assert DrawnFields(config, result, fields[..n]) == DrawnFields(config, result, fields[..n - 1])
        + if Hit(config, fields[n - 1], result) then {n - 1} else {};
    } else {
      assert DrawnFields(config, result, group.groupBy[..0]) == {};
    }
  }

  /** A group bet wins once for each place of the group whose field was drawn, always with the group's factor;
      another bet wins with the factor of the preset that decides it. */
  lemma WinsExactly(config: Config, result: int, bet: Bet)
    ensures bet.present in config.groups ==>
      var group, wins := config.groups[bet.present], WinsOf(config, result, bet);
      && |wins| == |DrawnFields(config, result, group.groupBy)|
      && forall w <- wins :: w.uid == bet.uid && w.factor == group.factor && IsOwed(bet.count, group.factor, w.owed)
    ensures bet.present !in config.groups ==> forall i: nat :: Decides(config, bet.present, result, i) ==>
      var wins, factor := WinsOf(config, result, bet), config.presets[i].factor;
      |wins| == 1 && wins[0].uid == bet.uid && wins[0].factor == factor && IsOwed(bet.count, factor, wins[0].owed)
  {
    hide Owed, IsOwed;
    if bet.present in config.groups {
      var group := config.groups[bet.present];
      GroupWinsAre(config, bet, result, group, |group.groupBy|);
      assert group.groupBy[..|group.groupBy|] == group.groupBy;
      OwedExactly(bet.count, group.factor, Owed(bet.count, group.factor));
    } else {
      forall i: nat | Decides(config, bet.present, result, i)
        ensures var wins, factor := WinsOf(config, result, bet), config.presets[i].factor;
                |wins| == 1 && wins[0].uid == bet.uid && wins[0].factor == factor
                && IsOwed(bet.count, factor, wins[0].owed)
      {
        FirstDrawnIs(config.presets, bet.present, result, i);
        OwedExactly(bet.count, config.presets[i].factor, Owed(bet.count, config.presets[i].factor));
      }
    }
  }

  /** The wins come in the order of the bets. */
  lemma {:induction false} WinsInOrder(config: Config, result: int, bets: seq<Bet>, more: seq<Bet>)
    ensures WinsOfAll(config, result, bets + more) == WinsOfAll(config, result, bets) + WinsOfAll(config, result, more)
    ensures |bets| == 1 ==> WinsOfAll(config, result, bets) == WinsOf(config, result, bets[0])
    decreases |more|
  {
    hide WinsOf;
    if more == [] {
      assert bets + more == bets;
    } else {
      var n := |more| - 1;
      WinsInOrder(config, result, bets, more[..n]);
      assert (bets + more)[..|bets + more| - 1] == bets + more[..n];
    }
  }

  predicate FactorsPositive(config: Config) {
    && (forall p <- config.presets :: p.factor >= 0.0)
    && (forall g <- config.groups :: config.groups[g].factor >= 0.0)
  }

  predicate PositiveWins(wins: seq<Win>, bets: seq<Bet>) {
    forall w <- wins :: w.owed >= 0 && exists b <- bets :: b.uid == w.uid
  }

  lemma {:induction false} GroupWinsPositive(config: Config, bet: Bet, result: int, group: Group, n: nat)
    requires n <= |group.groupBy| && group.factor >= 0.0
    ensures forall w <- GroupWins(config, bet, result, group, n) :: w.owed >= 0 && w.uid == bet.uid
  {
    if n > 0 {
      GroupWinsPositive(config, bet, result, group, n - 1);
      OwedSign(bet.count, group.factor);
    }
  }

  lemma {:induction false} DrawnWithin(presets: seq<Preset>, result: int)
    ensures forall p <- FirstDrawn(presets, result) :: p in presets
  {
    if presets != [] {
      DrawnWithin(presets[1..], result);
    }
  }

  lemma WinsOfPositive(config: Config, result: int, bet: Bet)
    requires FactorsPositive(config)
    ensures forall w <- WinsOf(config, result, bet) :: w.owed >= 0 && w.uid == bet.uid
  {
    if bet.present in config.groups {
      var group := config.groups[bet.present];
      GroupWinsPositive(config, bet, result, group, |group.groupBy|);
    } else {
      var drawn := FirstDrawn(OfField(config.presets, bet.present), result);
      DrawnWithin(OfField(config.presets, bet.present), result);
      forall i | 0 <= i < |drawn| ensures Owed(bet.count, drawn[i].factor) >= 0 {
        assert drawn[i] in drawn;
        OwedSign(bet.count, drawn[i].factor);
      }
    }
  }

  /** With factors that are not negative, only bettors win and nothing owed is negative. */
  lemma {:induction false} WinsPositive(config: Config, result: int, bets: seq<Bet>)
    requires FactorsPositive(config)
    ensures PositiveWins(WinsOfAll(config, result, bets), bets)
  {
    if bets != [] {
      var n := |bets| - 1;
      WinsPositive(config, result, bets[..n]);
      WinsOfPositive(config, result, bets[n]);
      hide WinsOf, FactorsPositive, PositiveWins;
      MoreWins(WinsOfAll(config, result, bets[..n]), WinsOf(config, result, bets[n]), bets, n);
    } else {
      hide WinsOf, FactorsPositive;
    }
  }

  lemma MoreWins(before: seq<Win>, wins: seq<Win>, bets: seq<Bet>, n: nat)
    requires n < |bets| && PositiveWins(before, bets[..n])
    requires forall w <- wins :: w.owed >= 0 && w.uid == bets[n].uid
    ensures PositiveWins(before + wins, bets)
  {
    assert bets[n] in bets && forall b <- bets[..n] :: b in bets;
  }

  // ---------- The books ----------

  datatype Books = Books(deposit: int, reports: Reports)

  function ReportOf(reports: Reports, uid: string): Report {
    if uid in reports then reports[uid] else NO_REPORT
  }

  function Collect(b: Books, bet: Bet): Books {
    var r := ReportOf(b.reports, bet.uid);
    Books(b.deposit + bet.count, b.reports[bet.uid := r.(pay := r.pay + bet.count)])
  }

  function CollectAll(b: Books, bets: seq<Bet>): Books {
    if bets == [] then b else Collect(CollectAll(b, bets[..|bets| - 1]), bets[|bets| - 1])
  }

  function Payment(pot: int, owed: int): int {
    if pot >= owed then owed else pot
  }

  function Pay(b: Books, w: Win): Books {
    var paid := Payment(b.deposit, w.owed);
    var r := ReportOf(b.reports, w.uid);
    var factor := if w.uid !in b.reports || w.factor > r.factor then w.factor else r.factor;
    Books(b.deposit - paid, b.reports[w.uid := Report(r.pay, r.actual + paid, r.should + w.owed, factor)])
  }

  /** The deposit falls by what is owed, or to zero if it does not suffice, and what it loses is won. */
  ghost predicate PaidOut(before: Books, after: Books, uid: string, owed: int) {
    var r := ReportOf(after.reports, uid);
    && after.deposit == (if before.deposit >= owed then before.deposit - owed else 0)
    && r.actual == ReportOf(before.reports, uid).actual + (before.deposit - after.deposit)
    && r.should == ReportOf(before.reports, uid).should + owed
    && after.reports.Keys == before.reports.Keys + {uid}
    && forall other <- before.reports :: other != uid ==> after.reports[other] == before.reports[other]
  }

  function PayAll(b: Books, wins: seq<Win>): Books {
    if wins == [] then b else Pay(PayAll(b, wins[..|wins| - 1]), wins[|wins| - 1])
  }

  lemma {:induction false} PayAllConcat(b: Books, v: seq<Win>, w: seq<Win>)
    ensures PayAll(b, v + w) == PayAll(PayAll(b, v), w)
  {
    if w == [] {
      assert v + w == v;
    } else {
      PayAllConcat(b, v, w[..|w| - 1]);
      assert (v + w)[..|v + w| - 1] == v + w[..|w| - 1];
    }
  }

  // ---------- Who is paid what ----------

  function Sum(s: seq<int>): int {
    if s == [] then 0 else Sum(s[..|s| - 1]) + s[|s| - 1]
  }

  function Oweds(wins: seq<Win>): (r: seq<int>)
    ensures |r| == |wins|
  {
    seq(|wins|, i requires 0 <= i < |wins| => wins[i].owed)
  }

  /** In turn, everyone gets what is owed or all that is left. */
  function Payments(pot: int, owed: seq<int>): (r: seq<int>)
    ensures |r| == |owed|
  {
    if owed == [] then []
    else
      var before := Payments(pot, owed[..|owed| - 1]);
      before + [Payment(pot - Sum(before), owed[|owed| - 1])]
  }

  /** The part of `amounts` that goes to `uid`. */
  function Share(uid: string, wins: seq<Win>, amounts: seq<int>): int
    requires |wins| == |amounts|
  {
    if wins == [] then 0
    else
      var n := |wins| - 1;
      Share(uid, wins[..n], amounts[..n]) + if wins[n].uid == uid then amounts[n] else 0
  }

  lemma PaymentsStep(pot: int, owed: seq<int>)
    requires owed != []
    ensures var n := |owed| - 1; var before := Payments(pot, owed[..n]);
            && Payments(pot, owed) == before + [Payment(pot - Sum(before), owed[n])]
            && Sum(Payments(pot, owed)) == Sum(before) + Payment(pot - Sum(before), owed[n])
            && Sum(owed) == Sum(owed[..n]) + owed[n]
  {
    hide Sum, Payment;
    var n := |owed| - 1;
    var before := Payments(pot, owed[..n]);
    SumSnoc(before, Payment(pot - Sum(before), owed[n]));
    SumSnoc(owed[..n], owed[n]);
    assert owed[..n] + [owed[n]] == owed;
  }

  lemma SumSnoc(s: seq<int>, x: int)
    ensures Sum(s + [x]) == Sum(s) + x
  {
    assert (s + [x])[..|s|] == s;
  }

  lemma {:induction false} PayAllDeposit(b: Books, wins: seq<Win>)
    ensures PayAll(b, wins).deposit == b.deposit - Sum(Payments(b.deposit, Oweds(wins)))
  {
    if wins != [] {
      hide Payments, Payment, Sum;
      var n := |wins| - 1;
      PayAllDeposit(b, wins[..n]);
      PaymentsStep(b.deposit, Oweds(wins));
      assert Oweds(wins)[..n] == Oweds(wins[..n]);
    }
  }

  /** Exactly the players that had a report or won have one. */
  lemma {:induction false} PayAllPlayers(b: Books, wins: seq<Win>, uid: string)
    ensures uid in PayAll(b, wins).reports <==> uid in b.reports || exists w <- wins :: w.uid == uid
  {
    if wins != [] {
      var n := |wins| - 1;
      PayAllPlayers(b, wins[..n], uid);
      assert wins == wins[..n] + [wins[n]];
    }
  }

  lemma ShareStep(uid: string, wins: seq<Win>, front: seq<int>, last: int)
    requires |wins| == |front| + 1
    ensures Share(uid, wins, front + [last])
         == Share(uid, wins[..|front|], front) + if wins[|front|].uid == uid then last else 0
  {
    assert (front + [last])[..|front|] == front;
  }

  /** What each player got and was owed. */
  lemma {:induction false} PayAllReports(b: Books, wins: seq<Win>, uid: string)
    ensures var owed := Oweds(wins);
            var before, after := ReportOf(b.reports, uid), ReportOf(PayAll(b, wins).reports, uid);
            && after.pay == before.pay
            && after.actual == before.actual + Share(uid, wins, Payments(b.deposit, owed))
            && after.should == before.should + Share(uid, wins, owed)
  {
    if wins != [] {
      hide Payments, Payment, Sum;
      var n := |wins| - 1;
      PayAllReports(b, wins[..n], uid);
      PayAllDeposit(b, wins[..n]);
      var owed, paid := Oweds(wins[..n]), Payments(b.deposit, Oweds(wins[..n]));
      assert Oweds(wins) == owed + [wins[n].owed];
      assert Oweds(wins)[..n] == owed;
      PaymentsStep(b.deposit, Oweds(wins));
      ShareStep(uid, wins, owed, wins[n].owed);
      ShareStep(uid, wins, paid, Payment(b.deposit - Sum(paid), wins[n].owed));
      hide Share, Oweds;
    }
  }

  /** A report names the best factor its player won with, or had before. */
  lemma {:induction false} BestFactor(b: Books, wins: seq<Win>, uid: string)
    requires uid in PayAll(b, wins).reports
    ensures var best := PayAll(b, wins).reports[uid].factor;
            && (forall w <- wins :: w.uid == uid ==> w.factor <= best)
            && (uid in b.reports ==> b.reports[uid].factor <= best)
            && ((uid in b.reports && b.reports[uid].factor == best)
                || exists w <- wins :: w.uid == uid && w.factor == best)
  {
    if wins != [] {
      var n := |wins| - 1;
      assert wins == wins[..n] + [wins[n]];
      if uid in PayAll(b, wins[..n]).reports {
        BestFactor(b, wins[..n], uid);
      } else {
        PayAllPlayers(b, wins[..n], uid);
      }
    }
  }

  /** With nothing owed below zero, all that is owed is paid, as far as the deposit reaches. */
  lemma {:induction false} PaymentsTotal(pot: int, owed: seq<int>)
    requires pot >= 0 && forall x <- owed :: x >= 0
    ensures Sum(Payments(pot, owed)) == (if Sum(owed) <= pot then Sum(owed) else pot)
    ensures Sum(owed) >= 0
  {
    if owed != [] {
      var n := |owed| - 1;
      assert owed[n] in owed && forall x <- owed[..n] :: x in owed;
      PaymentsTotal(pot, owed[..n]);
      PaymentsStep(pot, owed);
    }
  }

  /** The k-th winner gets what the ones before left over, and no more than is owed. */
  lemma {:induction false} PaymentsInTurn(pot: int, owed: seq<int>, k: nat)
    requires pot >= 0 && (forall x <- owed :: x >= 0) && k < |owed|
    ensures var left := if Sum(owed[..k]) <= pot then pot - Sum(owed[..k]) else 0;
            Payments(pot, owed)[k] == if owed[k] <= left then owed[k] else left
    ensures 0 <= Payments(pot, owed)[k] <= owed[k]
    ensures Payments(pot, owed)[k] < owed[k] ==> Sum(Payments(pot, owed)) == pot
  {
    var n := |owed| - 1;
    assert owed[n] in owed && forall x <- owed[..n] :: x in owed;
    PaymentsStep(pot, owed);
    PaymentsTotal(pot, owed[..n]);
    PaymentsTotal(pot, owed);
    hide Payments, Sum;
    if k < n {
      PaymentsInTurn(pot, owed[..n], k);
      assert owed[..n][..k] == owed[..k];
    }
  }

  /** Whatever is owed, the deposit never falls below zero. */
  lemma {:induction false} DepositStays(pot: int, owed: seq<int>)
    requires pot >= 0
    ensures pot - Sum(Payments(pot, owed)) >= 0
  {
    if owed != [] {
      PaymentsStep(pot, owed);
    }
  }

  lemma {:induction false} ShareBelow(uid: string, wins: seq<Win>, paid: seq<int>, owed: seq<int>)
    requires |wins| == |paid| == |owed|
    requires forall k :: 0 <= k < |wins| ==> paid[k] <= owed[k]
    ensures Share(uid, wins, paid) <= Share(uid, wins, owed)
    ensures Share(uid, wins, paid) < Share(uid, wins, owed) ==> exists k :: 0 <= k < |wins| && paid[k] < owed[k]
  {
    if wins != [] {
      var n := |wins| - 1;
      ShareBelow(uid, wins[..n], paid[..n], owed[..n]);
      if Share(uid, wins[..n], paid[..n]) < Share(uid, wins[..n], owed[..n]) {
        var k :| 0 <= k < n && paid[..n][k] < owed[..n][k];
        assert paid[k] < owed[k];
      }
    }
  }

  /** A player ends up with less than is owed only when nothing is left of the deposit. */
  lemma {:induction false} ShortOnlyWhenBroke(b: Books, wins: seq<Win>, uid: string)
    requires b.deposit >= 0 && forall w <- wins :: w.owed >= 0
    ensures var gain := ReportOf(PayAll(b, wins).reports, uid).actual - ReportOf(b.reports, uid).actual;
            var due := ReportOf(PayAll(b, wins).reports, uid).should - ReportOf(b.reports, uid).should;
            0 <= gain <= due && (gain < due ==> PayAll(b, wins).deposit == 0)
  {
    var owed := Oweds(wins);
    assert forall x <- owed :: x >= 0;
    PayAllDeposit(b, wins);
    PayAllReports(b, wins, uid);
    var paid := Payments(b.deposit, owed);
    forall k | 0 <= k < |wins| ensures 0 <= paid[k] <= owed[k] && (paid[k] < owed[k] ==> Sum(paid) == b.deposit) {
      PaymentsInTurn(b.deposit, owed, k);
    }
    ShareBelow(uid, wins, paid, owed);
    ShareBelow(uid, wins, seq(|wins|, _ => 0), paid);
    ShareOfNothing(uid, wins);
  }

  lemma {:induction false} ShareOfNothing(uid: string, wins: seq<Win>)
    ensures Share(uid, wins, seq(|wins|, _ => 0)) == 0
  {
    if wins != [] {
      var n := |wins| - 1;
      ShareOfNothing(uid, wins[..n]);
      assert seq(|wins|, _ => 0)[..n] == seq(n, _ => 0);
    }
  }

  // ---------- Conservation ----------

  /** The sum of all actual wins. */
  ghost function Total(reports: Reports): int {
    if reports == map[] then 0
    else
      var uid :| uid in reports;
      reports[uid].actual + Total(reports - {uid})
  }

  lemma {:induction false} TotalWithout(reports: Reports, uid: string)
    requires uid in reports
    ensures Total(reports) == reports[uid].actual + Total(reports - {uid})
  {
    var other :| other in reports && Total(reports) == reports[other].actual + Total(reports - {other});
    if other != uid {
      TotalWithout(reports - {other}, uid);
      TotalWithout(reports - {uid}, other);
      assert reports - {other} - {uid} == reports - {uid} - {other};
    }
  }

  lemma TotalUpdate(reports: Reports, uid: string, r: Report)
    ensures Total(reports[uid := r]) == Total(reports) - ReportOf(reports, uid).actual + r.actual
  {
    var after := reports[uid := r];
    TotalWithout(after, uid);
    if uid in reports {
      TotalWithout(reports, uid);
      assert after - {uid} == reports - {uid};
    } else {
      assert after - {uid} == reports;
    }
  }

  function Counts(bets: seq<Bet>): seq<int> {
    seq(|bets|, i requires 0 <= i < |bets| => bets[i].count)
  }

  lemma {:induction false} CollectConserves(b: Books, bets: seq<Bet>)
    ensures var after := CollectAll(b, bets);
            && after.deposit == b.deposit + Sum(Counts(bets))
            && Total(after.reports) == Total(b.reports)
            && forall uid ::
                 && ReportOf(after.reports, uid).actual == ReportOf(b.reports, uid).actual
                 && ReportOf(after.reports, uid).should == ReportOf(b.reports, uid).should
  {
    hide Total;
    if bets != [] {
      var n := |bets| - 1;
      CollectConserves(b, bets[..n]);
      var before, bet := CollectAll(b, bets[..n]), bets[n];
      assert Counts(bets)[..n] == Counts(bets[..n]);
      var r := ReportOf(before.reports, bet.uid);
      TotalUpdate(before.reports, bet.uid, r.(pay := r.pay + bet.count));
    }
  }

  /** What `uid` bet in all. */
  function Staked(uid: string, bets: seq<Bet>): nat {
    if bets == [] then 0
    else Staked(uid, bets[..|bets| - 1]) + if bets[|bets| - 1].uid == uid then bets[|bets| - 1].count else 0
  }

  /** Every report says what its player paid, and exactly the players that bet have a new one. */
  lemma {:induction false} CollectReports(b: Books, bets: seq<Bet>, uid: string)
    ensures var after := CollectAll(b, bets).reports;
            && ReportOf(after, uid).pay == ReportOf(b.reports, uid).pay + Staked(uid, bets)
            && (uid in after <==> uid in b.reports || exists bet <- bets :: bet.uid == uid)
  {
    if bets != [] {
      var n := |bets| - 1;
      CollectReports(b, bets[..n], uid);
      assert bets == bets[..n] + [bets[n]];
    }
  }

  /** Paying moves money from the deposit to the winners and loses none. */
  lemma {:induction false} PayConserves(b: Books, wins: seq<Win>)
    ensures PayAll(b, wins).deposit + Total(PayAll(b, wins).reports) == b.deposit + Total(b.reports)
  {
    hide Total;
    if wins != [] {
      var n := |wins| - 1;
      PayConserves(b, wins[..n]);
      var before, w := PayAll(b, wins[..n]), wins[n];
      TotalUpdate(before.reports, w.uid, Pay(before, w).reports[w.uid]);
    }
  }

  // ---------- Taxes ----------

  /** Taxes on an amount won: a flat part and a bracketed part, for banker and players. */
  datatype Taxes = Taxes(bankerFlat: int -> int, bankerGain: int -> int, flat: int -> int, gain: int -> int)

  function ActualTax(t: Taxes, r: Report): int {
    t.flat(r.actual) + if r.actual - r.pay > 0 then t.gain(r.actual - r.pay) else 0
  }

  function ShouldTax(t: Taxes, r: Report): int {
    t.flat(r.should) + if r.actual - r.pay > 0 then t.gain(r.should - r.pay) else 0
  }

  function AfterTax(t: Taxes, r: Report): Report {
    r.(actual := r.actual - ActualTax(t, r), should := r.should - ShouldTax(t, r))
  }

  /** Only a player that got more than was paid pays the bracketed tax, on what was owed as well. */
  lemma TaxCases(t: Taxes, r: Report)
    ensures var after := AfterTax(t, r);
            && after.pay == r.pay && after.factor == r.factor
            && (r.actual <= r.pay ==>
                  after.actual == r.actual - t.flat(r.actual) && after.should == r.should - t.flat(r.should))
            && (r.actual > r.pay ==>
                  && after.actual == r.actual - t.flat(r.actual) - t.gain(r.actual - r.pay)
                  && after.should == r.should - t.flat(r.should) - t.gain(r.should - r.pay))
  {
  }

  /** Only players that are still known are taxed. */
  function Taxed(t: Taxes, known: set<string>, reports: Reports): Reports {
    map uid | uid in reports :: if uid in known then AfterTax(t, reports[uid]) else reports[uid]
  }

  // ---------- The round ----------

  /** The bets that are lost to the banker first: in the lotto round, team bets are not. */
  function Collected(config: Config, result: int, bets: seq<Bet>): seq<Bet> {
    if bets == [] then []
    else
      var front := Collected(config, result, bets[..|bets| - 1]);
      if result == LOTTO && IsPid(config, bets[|bets| - 1].present) then front else front + [bets[|bets| - 1]]
  }

  /** Bet by bet and in order: a bet is given back in round 100 if it names the pid of a preset or a group. */
  lemma {:induction false} CollectedInOrder(config: Config, result: int, bets: seq<Bet>, more: seq<Bet>)
    ensures Collected(config, result, bets + more) == Collected(config, result, bets) + Collected(config, result, more)
    ensures |bets| == 1 ==>
      var named := bets[0].present in config.groups || exists p <- config.presets :: p.pid == bets[0].present;
      Collected(config, result, bets) == if result == 100 && named then [] else bets
    decreases |more|
  {
    if more == [] {
      assert bets + more == bets;
    } else {
      var n := |more| - 1;
      CollectedInOrder(config, result, bets, more[..n]);
      hide IsPid;
      assert (bets + more)[..|bets + more| - 1] == bets + more[..n];
    }
  }

  class Round {
    var deposit: int
    var bets: seq<Bet>
    var reports: Reports

    function Account(): Books
      reads this
    {
      Books(deposit, reports)
    }

    constructor (deposit: int, bets: seq<Bet>)
      ensures Account() == Books(deposit, map[]) && this.bets == bets
    {
      this.deposit, this.bets, reports := deposit, bets, map[];
    }

    method RecordLose(bi: Bet)
      modifies this`reports
      ensures reports == Collect(old(Account()), bi).reports
    {
      if bi.uid in reports {
        var rpt := reports[bi.uid];
        reports := reports[bi.uid := rpt.(pay := rpt.pay + bi.count)];
      } else {
        reports := reports[bi.uid := NO_REPORT.(pay := bi.count)];
      }
    }

    method RecordWinner(bi: Bet, factor: real)
      modifies this`deposit, this`reports
      ensures Account() == Pay(old(Account()), Win(bi.uid, Owed(bi.count, factor), factor))
      ensures exists owed: int :: IsOwed(bi.count, factor, owed) && PaidOut(old(Account()), Account(), bi.uid, owed)
    {
      OwedExactly(bi.count, factor, Owed(bi.count, factor));
      hide IsOwed;
      var win := 0;
      var should := Truncated(bi.count * (factor * 10.0 + 0.5).Floor, 10);
      if deposit >= should {
        win := should;
        deposit := deposit - win;
      } else {
        win := deposit;
        deposit := 0;
      }
      if bi.uid in reports {
        var rpt := reports[bi.uid];
        rpt := rpt.(actual := rpt.actual + win, should := rpt.should + should);
        if factor > rpt.factor {
          rpt := rpt.(factor := factor);
        }
        reports := reports[bi.uid := rpt];
      } else {
        reports := reports[bi.uid := Report(0, win, should, factor)];
      }
    }

    /** The first loops of balance_result: refund team bets in the lotto round, collect the others. */
    method CollectBets(config: Config, result: int) returns (collected: int, refunded: int)
      modifies this`deposit, this`reports
      ensures Account() == CollectAll(old(Account()), Collected(config, result, bets))
      ensures collected == Sum(Counts(Collected(config, result, bets)))
      ensures collected + refunded == Sum(Counts(bets))
      ensures result != LOTTO ==> refunded == 0
    {
      hide CollectAll, Collect, Collected, Sum, Counts, IsPid;
      NoBets(config, result, Account());
      collected, refunded := 0, 0;
      assert bets[..0] == [] && bets[..|bets|] == bets;
      for i := 0 to |bets|
        invariant Account() == CollectAll(old(Account()), Collected(config, result, bets[..i]))
        invariant collected == Sum(Counts(Collected(config, result, bets[..i])))
        invariant collected + refunded == Sum(Counts(bets[..i]))
        invariant result != LOTTO ==> refunded == 0
      {
        var bi := bets[i];
        CollectedStep(config, result, bets, i);
        CollectOneMore(old(Account()), Collected(config, result, bets[..i]), bi);
        if result == LOTTO && IsPid(config, bi.present) {
          refunded := refunded + bi.count;
        } else {
          RecordLose(bi);
          deposit := deposit + bi.count;
          collected := collected + bi.count;
        }
      }
    }

    /** The winnings of one bet. */
    method PayBet(config: Config, result: int, bi: Bet)
      modifies this`deposit, this`reports
      ensures Account() == PayAll(old(Account()), WinsOf(config, result, bi))
    {
      if bi.present in config.groups {
        var group := config.groups[bi.present];
        for j := 0 to |group.groupBy|
          invariant Account() == PayAll(old(Account()), GroupWins(config, bi, result, group, j))
        {
          var vp := OfField(config.presets, group.groupBy[j]);
          ghost var before := Account();
          for ii := 0 to |vp|
            invariant forall k :: 0 <= k < ii ==> vp[k].pid != result
            invariant Account() == before
          {
            if vp[ii].pid == result {
              RecordWinner(bi, group.factor);
              break;
            }
          }
        }
      } else {
        var vp := OfField(config.presets, bi.present);
        for i := 0 to |vp|
          invariant Account() == old(Account())
          invariant FirstDrawn(vp, result) == FirstDrawn(vp[i..], result)
        {
          if vp[i].pid == result {
            RecordWinner(bi, vp[i].factor);
            break;
          }
        }
      }
    }

    method PayWinners(config: Config, result: int)
      modifies this`deposit, this`reports
      ensures Account() == PayAll(old(Account()), WinsOfAll(config, result, bets))
    {
      for i := 0 to |bets|
        invariant Account() == PayAll(old(Account()), WinsOfAll(config, result, bets[..i]))
      {
        PayBet(config, result, bets[i]);
        assert bets[..i + 1][..i] == bets[..i];
        PayAllConcat(old(Account()), WinsOfAll(config, result, bets[..i]), WinsOf(config, result, bets[i]));
      }
      assert bets[..|bets|] == bets;
    }

    /** The winners' taxes, report by report. */
    method TaxWinners(t: Taxes, known: set<string>) returns (tax: int)
      modifies this`reports
      ensures reports == Taxed(t, known, old(reports))
      ensures tax == Total(old(reports)) - Total(reports)
    {
      tax := 0;
      var todo := reports.Keys;
      while todo != {}
        invariant todo <= reports.Keys == old(reports).Keys
        invariant forall uid <- reports ::
          reports[uid] == if uid in todo then old(reports)[uid] else Taxed(t, known, old(reports))[uid]
        invariant tax == Total(old(reports)) - Total(reports)
        decreases |todo|
      {
        var uid :| uid in todo;
        todo := todo - {uid};
        var grd := reports[uid];
        if uid in known {
          var after := AfterTax(t, grd);
          TotalUpdate(reports, uid, after);
          reports := reports[uid := after];
          tax := tax + ActualTax(t, grd);
        }
      }
    }

    /** balance_result.  With bots betting, a round without bets is not settled. */
    method BalanceResult(config: Config, result: int, botsBet: bool, hasBanker: bool, t: Taxes, known: set<string>)
      returns (collected: int, refunded: int, bankerWin: int, tax: int)
      modifies this
      ensures bets == []
      ensures old(bets) == [] && botsBet ==> Account() == old(Account()) && collected == refunded == tax == 0
      ensures collected + refunded == Sum(Counts(old(bets)))
      ensures deposit + Total(reports) + tax == old(deposit) + Total(old(reports)) + collected
      ensures old(bets) != [] || !botsBet ==>
        var paid := PayAll(CollectAll(old(Account()), Collected(config, result, old(bets))),
                           WinsOfAll(config, result, old(bets)));
        var won := paid.deposit - old(deposit);
        var levy := if hasBanker && won > 0 then t.bankerFlat(won) + t.bankerGain(won) else 0;
        && deposit == paid.deposit - levy && bankerWin == won - levy
        && reports == Taxed(t, known, paid.reports)
    {
      hide CollectAll, PayAll, WinsOfAll, Collected, Taxed, Total, Sum, Counts;
      NoBets(config, result, Account());
      collected, refunded, bankerWin, tax := 0, 0, 0, 0;
      if bets == [] && botsBet {
        return;
      }
      ghost var start, placed := Account(), bets;
      var oldDeposit := deposit;
      collected, refunded := CollectBets(config, result);
      PayWinners(config, result);
      CollectConserves(start, Collected(config, result, placed));
      PayConserves(CollectAll(start, Collected(config, result, placed)), WinsOfAll(config, result, placed));
      bets := [];
      bankerWin := deposit - oldDeposit;
      if hasBanker {
        if bankerWin > 0 {
          var levy := t.bankerFlat(bankerWin) + t.bankerGain(bankerWin);
          tax := tax + levy;
          deposit := deposit - levy;
          bankerWin := bankerWin - levy;
        }
      }
      var levied := TaxWinners(t, known);
      tax := tax + levied;
    }
  }

  lemma NoBets(config: Config, result: int, b: Books)
    ensures Sum(Counts([])) == 0 && Collected(config, result, []) == [] && CollectAll(b, []) == b
  {
  }

  lemma CollectedStep(config: Config, result: int, bets: seq<Bet>, i: nat)
    requires i < |bets|
    ensures Collected(config, result, bets[..i + 1]) == Collected(config, result, bets[..i])
      + if result == LOTTO && IsPid(config, bets[i].present) then [] else [bets[i]]
    ensures Sum(Counts(bets[..i + 1])) == Sum(Counts(bets[..i])) + bets[i].count
  {
    assert bets[..i + 1][..i] == bets[..i];
    assert Counts(bets[..i + 1])[..i] == Counts(bets[..i]);
  }

  lemma CollectOneMore(b: Books, bets: seq<Bet>, bet: Bet)
    ensures CollectAll(b, bets + [bet]) == Collect(CollectAll(b, bets), bet)
    ensures CollectAll(b, bets + [bet]).deposit == CollectAll(b, bets).deposit + bet.count
    ensures Sum(Counts(bets + [bet])) == Sum(Counts(bets)) + bet.count
    ensures bets + [] == bets
  {
    assert (bets + [bet])[..|bets|] == bets;
    assert Counts(bets + [bet])[..|bets|] == Counts(bets);
  }

  /** The whole round, player by player: the deposit stays at or above zero, nobody gets more than is owed,
      and somebody gets less only when the deposit is used up. */
  lemma RoundIsFair(config: Config, result: int, deposit: nat, bets: seq<Bet>, uid: string)
    requires FactorsPositive(config)
    ensures var paid := PayAll(CollectAll(Books(deposit, map[]), Collected(config, result, bets)),
                               WinsOfAll(config, result, bets));
            var r := ReportOf(paid.reports, uid);
            && paid.deposit >= 0
            && 0 <= r.actual <= r.should
            && (r.actual < r.should ==> paid.deposit == 0)
            && paid.deposit + Total(paid.reports) == deposit + Sum(Counts(Collected(config, result, bets)))
  {
    var start := Books(deposit, map[]);
    var collected := CollectAll(start, Collected(config, result, bets));
    var wins := WinsOfAll(config, result, bets);
    CollectConserves(start, Collected(config, result, bets));
    CountsPositive(Collected(config, result, bets));
    WinsPositive(config, result, bets);
    DepositStays(collected.deposit, Oweds(wins));
    PayAllDeposit(collected, wins);
    ShortOnlyWhenBroke(collected, wins, uid);
    PayConserves(collected, wins);
  }

  lemma {:induction false} CountsPositive(bets: seq<Bet>)
    ensures Sum(Counts(bets)) >= 0
  {
    if bets != [] {
      var n := |bets| - 1;
      CountsPositive(bets[..n]);
      assert Counts(bets)[..n] == Counts(bets[..n]);
    }
  }
}
