/** The attempt table behind FormB::checkIP and FormB::logIP, and the decision they make. */
module RateLimit {
  import opened Wrappers
  import opened Php

  /** The length of the window, 30 minutes, in seconds. */
  const WindowSeconds := 1800

  /** The diagnostic appended when a page was submitted too often from one address. */
  const TooManyAttemptsMessage := "You have tried to submit this form too many times.  Please try again in <strong>30 minutes</strong>."

  /** FORM_CHKERR and FORM_LOGERR as the configuration defines them. */
  const FormChkErr := "A fatal error has occured."
  const FormLogErr := "A fatal error has occured."

  /** A row of the table: how many attempts, and when the row was last written. */
  datatype Row = Row(attempts: int, date: int)

  /** The table, keyed by page and remote address (the address as ip2long gives it). */
  type Table = map<(string, int), Row>

  /** `date` > NOW() - INTERVAL 30 MINUTE, with the clock reading `now` in seconds. */
  predicate InWindow(date: int, now: int)
  {
    date > now - WindowSeconds
  }

  /** sanitizeUrlString: drops as many leading characters of the URL as the omitted
      string has, whether or not the URL starts with it. */
  function SanitizeUrlString(url: string, needle: string): (r: string)
    ensures |r| == if |needle| <= |url| then |url| - |needle| else 0
    ensures r == url[|url| - |r|..]
  {
    SubstrFrom(url, |needle|)
  }

  /** When the URL does start with the omitted string, exactly the rest is left. */
  lemma SanitizeUrlStringPrefix(prefix: string, rest: string)
    ensures SanitizeUrlString(prefix + rest, prefix) == rest
  {
    assert (prefix + rest)[|prefix|..] == rest;
  }

  /** Only the length of the omitted string matters. */
  lemma SanitizeUrlStringLengthOnly(url: string, n1: string, n2: string)
    requires |n1| == |n2|
    ensures SanitizeUrlString(url, n1) == SanitizeUrlString(url, n2)
  {
  }

  /** checkIP's SELECT: the attempts of the row for (page, ip) if that row was written
      inside the window. */
  function SelectAttempts(t: Table, page: string, ip: int, now: int): Option<int>
  {
    var k := (page, ip);
    if k in t && InWindow(t[k].date, now) then Some(t[k].attempts) else None
  }

  /** logIP's INSERT ... ON DUPLICATE KEY UPDATE. A new row starts at one attempt (the
      column defaults); an existing row counts one more attempt when it was written
      inside the window and restarts at one otherwise; either way it is stamped `now`. */
  function Upserted(t: Table, page: string, ip: int, now: int): Table
  {
    var k := (page, ip);
    if k !in t then t[k := Row(1, now)]
    else t[k := Row(if InWindow(t[k].date, now) then t[k].attempts + 1 else 1, now)]
  }

  /** The upsert touches one row only and stamps it with `now`. */
  lemma UpsertedRow(t: Table, page: string, ip: int, now: int)
    ensures var u := Upserted(t, page, ip, now);
      && u.Keys == t.Keys + {(page, ip)}
      && (forall k :: k in t && k != (page, ip) ==> u[k] == t[k])
      && u[(page, ip)].date == now
      && u[(page, ip)].attempts == match SelectAttempts(t, page, ip, now)
                                   case Some(a) => a + 1
                                   case None => 1
  {
  }

  /** The SELECT read back right after the upsert, at the same time, finds the row and
      sees one attempt more than it saw before (one for a fresh row); the SELECT on any
      other key sees what it saw before. */
  lemma SelectAfterUpsert(t: Table, page: string, ip: int, now: int, page': string, ip': int, now': int)
    requires (page', ip') != (page, ip)
    ensures SelectAttempts(Upserted(t, page, ip, now), page, ip, now)
         == Some(match SelectAttempts(t, page, ip, now)
                 case Some(a) => a + 1
                 case None => 1)
    ensures SelectAttempts(Upserted(t, page, ip, now), page', ip', now')
         == SelectAttempts(t, page', ip', now')
  {
    assert InWindow(now, now);
  }

  /** What one checkIP call leaves behind: the table and the messages it appended. */
  datatype CheckResult = CheckResult(table: Table, messages: seq<string>)

  /** checkIP's test on the SELECT's result: a row for (page, ip) written inside the
      window whose attempts have reached the threshold. */
  predicate Blocked(t: Table, page: string, ip: int, now: int, threshold: int)
  {
    var found := SelectAttempts(t, page, ip, now);
    found.Some? && found.value >= threshold
  }

  /** logIP: the upsert, or FORM_LOGERR when the query fails. */
  function LogStep(t: Table, page: string, ip: int, now: int, insertOk: bool): CheckResult
  {
    if insertOk then CheckResult(Upserted(t, page, ip, now), []) else CheckResult(t, [FormLogErr])
  }

  /** checkIP: FORM_CHKERR when the SELECT fails; the too-many-attempts message, with
      the table left alone, when the row inside the window has reached the threshold;
      otherwise logIP. */
  function CheckStep(t: Table, page: string, ip: int, now: int, threshold: int, selectOk: bool, insertOk: bool): CheckResult
  {
    if !selectOk then CheckResult(t, [FormChkErr])
    else if Blocked(t, page, ip, now, threshold) then CheckResult(t, [TooManyAttemptsMessage])
    else LogStep(t, page, ip, now, insertOk)
  }

  /** A call appends at most one message. It appends none exactly when both queries
      succeed and the address is not blocked; then the row is counted, and otherwise
      the table is unchanged. A blocked address gets the too-many-attempts message. */
  lemma CheckStepOutcome(t: Table, page: string, ip: int, now: int, threshold: int, selectOk: bool, insertOk: bool)
    ensures var r := CheckStep(t, page, ip, now, threshold, selectOk, insertOk);
      && |r.messages| <= 1
      && (r.messages == [] <==> selectOk && insertOk && !Blocked(t, page, ip, now, threshold))
      && (r.messages == [] ==> r.table == Upserted(t, page, ip, now))
      && (r.messages != [] ==> r.table == t)
      && (selectOk && Blocked(t, page, ip, now, threshold) ==> r.messages == [TooManyAttemptsMessage])
      && (!selectOk ==> r.messages == [FormChkErr])
  {
  }

  /** Every row's count lies between one and the threshold. */
  predicate AttemptsWithin(t: Table, threshold: int)
  {
    forall k :: k in t ==> 1 <= t[k].attempts <= threshold
  }

  /** checkIP never counts past the threshold: the bound holds again after every call. */
  lemma CheckStepKeepsBound(t: Table, page: string, ip: int, now: int, threshold: int, selectOk: bool, insertOk: bool)
    requires threshold >= 1 && AttemptsWithin(t, threshold)
    ensures AttemptsWithin(CheckStep(t, page, ip, now, threshold, selectOk, insertOk).table, threshold)
  {
    var k := (page, ip);
    var r := CheckStep(t, page, ip, now, threshold, selectOk, insertOk);
    if r.table != t {
      assert r.table == Upserted(t, page, ip, now);
      forall k' | k' in r.table ensures 1 <= r.table[k'].attempts <= threshold {
        if k' != k { assert k' in t; }
      }
    }
  }

  /** With a threshold of three, three calls within the window are counted (1, 2, 3), a
      fourth is refused and leaves the count at 3, and a call once the window of the last
      counted attempt has passed starts again at 1. The window is strict: a row written
      exactly 1800 seconds ago is outside it. */
  lemma ThreeAttemptsScenario(page: string, ip: int, t0: int)
    ensures var k := (page, ip);
      var r1 := CheckStep(map[], page, ip, t0, 3, true, true);
      var r2 := CheckStep(r1.table, page, ip, t0 + 60, 3, true, true);
      var r3 := CheckStep(r2.table, page, ip, t0 + 120, 3, true, true);
      var r4 := CheckStep(r3.table, page, ip, t0 + 180, 3, true, true);
      var r5 := CheckStep(r4.table, page, ip, t0 + 120 + WindowSeconds, 3, true, true);
      && r1.messages == [] && r1.table[k] == Row(1, t0)
      && r2.messages == [] && r2.table[k] == Row(2, t0 + 60)
      && r3.messages == [] && r3.table[k] == Row(3, t0 + 120)
      && r4.messages == [TooManyAttemptsMessage] && r4.table == r3.table
      && r5.messages == [] && r5.table[k] == Row(1, t0 + 120 + WindowSeconds)
  {
  }
}
