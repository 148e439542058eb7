/** The stateful part of the form backend: class FormB with its error list, the attempt
    table it logs submissions to, and the Line value object. */
module Form {
  import opened Wrappers
  import opened Php
  import opened Payload
  import opened Sanitizer
  import opened EmailRules
  import opened RequiredFields
  import RateLimit

  /** The message checkIP throws when no database handle was given. */
  const NoHandleMessage := "Handle provided was not a valid MySQL resource in method checkIP()."

  /** The MySQL table of attempts, reached through FormB's handle. */
  class AttemptTable {
    var rows: RateLimit.Table

    constructor(initial: RateLimit.Table)
      ensures rows == initial
    {
      rows := initial;
    }

    /** The SELECT of checkIP: the attempts of the row for (page, ip) written inside the
        window, if any. */
    method SelectAttempts(page: string, ip: int, now: int) returns (r: Option<int>)
      ensures r == RateLimit.SelectAttempts(rows, page, ip, now)
    {
      var k := (page, ip);
      if k in rows && RateLimit.InWindow(rows[k].date, now) {
        r := Some(rows[k].attempts);
      } else {
        r := None;
      }
    }

    /** The INSERT ... ON DUPLICATE KEY UPDATE of logIP. */
    method Upsert(page: string, ip: int, now: int)
      modifies this
      ensures rows == RateLimit.Upserted(old(rows), page, ip, now)
    {
      var k := (page, ip);
      if k !in rows {
        rows := rows[k := RateLimit.Row(1, now)];
      } else {
        var attempts := if RateLimit.InWindow(rows[k].date, now) then rows[k].attempts + 1 else 1;
        rows := rows[k := RateLimit.Row(attempts, now)];
      }
    }
  }

  class FormB {
    /** The diagnostics collected so far, in the order they were added. */
    var errors: seq<string>
    /** The constructor's $requiredVars. */
    var required: Requirement
    /** The constructor's $mysqlHandle; null when none was given. */
    var handle: AttemptTable?

    /** No diagnostic is empty in PHP's sense: every way in refuses or never produces one. */
    predicate Valid()
      reads this
    {
      forall i :: 0 <= i < |errors| ==> !EmptyString(errors[i])
    }

    constructor(requiredVars: Requirement, mysqlHandle: AttemptTable?)
      ensures errors == [] && required == requiredVars && handle == mysqlHandle
      ensures Valid() && !CheckErrors()
    {
      errors := [];
      required := requiredVars;
      handle := mysqlHandle;
    }

    /** checkErrors: whether any diagnostic was collected. */
    predicate CheckErrors()
      reads this
    {
      errors != []
    }

    /** addError: appends a message unless it is empty in PHP's sense ("" or "0"). */
    method AddError(m: string)
      requires Valid()
      modifies this`errors
      ensures Valid()
      ensures errors == if EmptyString(m) then old(errors) else old(errors) + [m]
      ensures CheckErrors() <==> old(CheckErrors()) || !EmptyString(m)
    {
      if !EmptyString(m) {
        errors := errors + [m];
      }
    }

    /** setErr: the blank-field message for one name, when it is blank. */
    method SetErr(request: Request, name: string)
      requires Valid()
      modifies this`errors
      ensures Valid()
      ensures errors == old(errors) + SetErrMessages(request, name)
    {
      if !EmptyString(name) && !IsSetNotEmpty(Lookup(request, name)) {
        var m := BlankFieldMessage(name);
        assert |m| > 1;
        errors := errors + [m];
      }
    }

    /** processReq: fails with its exception message when nothing is required; otherwise
        appends setErr's messages for the required names, in order. */
    method ProcessReq(request: Request) returns (o: Outcome<string>)
      requires Valid()
      modifies this`errors
      ensures Valid()
      ensures NoRequirements(required) ==> o == Fail(NoRequirementsMessage) && errors == old(errors)
      ensures !NoRequirements(required) ==>
        o == Pass && errors == old(errors) + BlankMessages(request, Names(required))
    {
      if NoRequirements(required) {
        return Fail(NoRequirementsMessage);
      }
      if required.Many? {
        SetErrs(request, required.names);
      } else {
        SetErr(request, required.name);
        assert [required.name][..0] == [];
      }
      return Pass;
    }

    /** The foreach of processReq: setErr for every name of the list, in order. */
    method SetErrs(request: Request, names: seq<string>)
      requires Valid()
      modifies this`errors
      ensures Valid()
      ensures errors == old(errors) + BlankMessages(request, names)
    {
      for i := 0 to |names|
        invariant Valid()
        invariant errors == old(errors) + BlankMessages(request, names[..i])
      {
        SetErr(request, names[i]);
        BlankMessagesPrefix(request, names, i);
      }
      assert names[..|names|] == names;
    }

    /** validEmail: the rule chain on the parts around the last '@', then the optional DNS
        lookup; one fixed diagnostic when the address is refused. */
    method ValidEmail(email: string, chkDNS: bool, dns: (string, DnsRecord) -> bool)
      requires Valid()
      modifies this`errors
      ensures Valid()
      ensures errors == old(errors) + if EmailAccepted(email, chkDNS, dns) then [] else [InvalidEmailMessage]
    {
      var isValid := true;
      var atIndex := LastIndexOf(email, '@');
      if atIndex.None? {
        isValid := false;
      } else {
        // substr($email, $atIndex + 1) and substr($email, 0, $atIndex): the '@' is inside
        // the address, so both are plain slices.
        var domain := email[atIndex.value + 1..];
        var local := email[..atIndex.value];
        assert SplitAtLastAt(email) == Some(Address(local, domain));
        isValid := RuleChain(local, domain, false);
        if chkDNS {
          if isValid && !(dns(domain, MX) || dns(domain, A)) {
            isValid := false;
          }
        }
        assert isValid <==> EmailAccepted(email, chkDNS, dns);
      }
      assert isValid <==> EmailAccepted(email, chkDNS, dns);
      if !isValid {
        errors := errors + [InvalidEmailMessage];
      }
    }

    /** The if/elseif chain of validEmail on the two parts, each rule in its turn. With
        pcreDollar the patterns' '$' also matches before a final newline, as PCRE reads
        it; without, it is the end of the subject. */
    static method RuleChain(local: string, domain: string, pcreDollar: bool) returns (isValid: bool)
      ensures isValid <==> PartsValid(local, domain, pcreDollar)
    {
      isValid := true;
      if |local| < 1 || |local| > MaxLocalLength {
        isValid := false;
      } else if |domain| < 1 || |domain| > MaxDomainLength {
        isValid := false;
      } else if local[0] == '.' || local[|local| - 1] == '.' {
        isValid := false;
      } else if HasDotRun(local) {
        isValid := false;
      } else if !EndAnchored(DomainForm, domain, pcreDollar) {
        isValid := false;
      } else if HasDotRun(domain) {
        isValid := false;
      } else if !EndAnchored(UnquotedForm, RemoveBackslashPairs(local), pcreDollar) {
        if !EndAnchored(QuotedForm, RemoveBackslashPairs(local), pcreDollar) {
          isValid := false;
        }
      }
    }

    /** sanitizeArray: every string leaf of an array escaped, keys and nesting kept; a
        value that is not an array comes back as it is, since foreach skips it. */
    static method SanitizeArray(arr: Value) returns (r: Value)
      ensures r == if arr.Arr? then Sanitized(arr) else arr
      decreases arr
    {
      if arr.Str? {
        return arr;
      }
      var es := arr.entries;
      var out := es;
      for i := 0 to |es|
        invariant |out| == |es|
        invariant forall j :: 0 <= j < i ==> out[j] == (es[j].0, Sanitized(es[j].1))
        invariant forall j :: i <= j < |es| ==> out[j] == es[j]
      {
        var value := es[i].1;
        assert value < arr;
        if value.Arr? {
          var v := SanitizeArray(value);
          out := out[i := (es[i].0, v)];
        } else {
          out := out[i := (es[i].0, Str(SanitizeInput(value.s)))];
        }
      }
      r := Arr(out);
    }

    /** sanitizeObject: an array goes through sanitizeArray, a string is escaped. */
    static method SanitizeObject(ob: Value) returns (r: Value)
      ensures r == Sanitized(ob)
      ensures SameShape(ob, r) && NoMarkup(r) && Desanitized(r) == ob
    {
      if ob.Arr? {
        r := SanitizeArray(ob);
      } else {
        r := Str(SanitizeInput(ob.s));
      }
      SanitizedSameShape(ob);
      SanitizedNoMarkup(ob);
      DesanitizeSanitized(ob);
    }

    /** checkItBox: the checked attribute when the string is one of the boxes. */
    static function CheckItBox(s: string, boxes: seq<string>): string
    {
      if boxes != [] && s in boxes then "checked=\"checked\"" else ""
    }

    /** The attribute is always one of the two strings, and it depends on the boxes only
        through whether s is among them: order, repeats and the other boxes play no part. */
    static lemma CheckItBoxMembership(s: string, boxes: seq<string>, others: seq<string>)
      ensures CheckItBox(s, boxes) in {"checked=\"checked\"", ""}
      ensures CheckItBox(s, boxes) != "" <==> s in boxes
      ensures (s in boxes <==> s in others) ==> CheckItBox(s, boxes) == CheckItBox(s, others)
    {
    }

    /** checkIP: throws without a handle; otherwise the SELECT on the page key and the
        address, then the too-many-attempts message or logIP, as RateLimit.CheckStep
        describes. The outcomes of the two queries are given. */
    method CheckIP(phpSelf: string, urlOmit: string, ip: int, threshold: int, now: int, selectOk: bool, insertOk: bool)
      returns (o: Outcome<string>)
      requires Valid()
      modifies this`errors, handle
      ensures Valid()
      ensures handle == old(handle)
      ensures handle == null ==> o == Fail(NoHandleMessage) && errors == old(errors)
      ensures handle != null ==>
        var r := RateLimit.CheckStep(old(handle.rows), RateLimit.SanitizeUrlString(phpSelf, urlOmit), ip, now, threshold, selectOk, insertOk);
        && o == Pass
        && handle.rows == r.table
        && errors == old(errors) + r.messages
    {
      if handle == null {
        return Fail(NoHandleMessage);
      }
      var page := RateLimit.SanitizeUrlString(phpSelf, urlOmit);
      if selectOk {
        var found := handle.SelectAttempts(page, ip, now);
        if found.Some? && found.value >= threshold {
          errors := errors + [RateLimit.TooManyAttemptsMessage];
        } else {
          LogIP(phpSelf, urlOmit, ip, now, insertOk);
        }
      } else {
        errors := errors + [RateLimit.FormChkErr];
      }
      return Pass;
    }

    /** logIP: the upsert for the page key and the address, or FORM_LOGERR when the
        query fails, which it does without a handle. */
    method LogIP(phpSelf: string, urlOmit: string, ip: int, now: int, insertOk: bool)
      requires Valid()
      modifies this`errors, handle
      ensures Valid()
      ensures handle == null || !insertOk ==> errors == old(errors) + [RateLimit.FormLogErr]
      ensures handle != null ==>
        var r := RateLimit.LogStep(old(handle.rows), RateLimit.SanitizeUrlString(phpSelf, urlOmit), ip, now, insertOk);
        handle.rows == r.table && errors == old(errors) + r.messages
    {
      var page := RateLimit.SanitizeUrlString(phpSelf, urlOmit);
      if handle != null && insertOk {
        handle.Upsert(page, ip, now);
      } else {
        errors := errors + [RateLimit.FormLogErr];
      }
    }
  }

  /** What a Line prints: the wrapped data when there is some, otherwise just the closing
      tag (or nothing when the paragraph stays open). */
  function LineText(prefix: string, data: string, state: bool): string
  {
    if EmptyString(data) then (if state then "" else "</p>")
    else prefix + "<strong>" + data + "</strong>" + (if state then "<br />" else "</p>")
  }

  /** A line ends its paragraph exactly when state is false; with data it shows the
      prefix followed by the data in strong tags. */
  lemma LineTextShape(prefix: string, data: string, state: bool)
    ensures var t := LineText(prefix, data, state);
      && (!state <==> |t| >= 4 && t[|t| - 4..] == "</p>")
      && (!EmptyString(data) ==> t[..|prefix| + 8 + |data| + 9] == prefix + "<strong>" + data + "</strong>")
      && (EmptyString(data) && state ==> t == "")
  {
    var t := LineText(prefix, data, state);
    if !EmptyString(data) {
      var body := prefix + "<strong>" + data + "</strong>";
      assert t == body + (if state then "<br />" else "</p>");
      assert t[..|body|] == body;
      if state {
        assert t[|t| - 4..] == "r />";
      } else {
        assert t[|t| - 4..] == "</p>";
      }
    }
  }

  /** class Line: a labelled line of submitted data. */
  class Line {
    var pre: string
    var data: string
    var line: string
    var s: bool

    /** The printed text follows the stored fields. */
    predicate Valid()
      reads this
    {
      line == LineText(pre, data, s)
    }

    /** Stores the prefix, the data with stripslashes() applied and the state, then wraps
        the data when it is not empty. */
    constructor(prefix: string, rawData: string, state: bool)
      ensures pre == prefix && data == StripSlashes(rawData) && s == state
      ensures Valid()
    {
      pre := prefix;
      data := StripSlashes(rawData);
      s := state;
      line := if state then "" else "</p>";
      new;
      Verify();
    }

    /** verify: wraps the data only when it is not empty. */
    method Verify()
      requires line == (if s then "" else "</p>")
      modifies this`line
      ensures Valid()
    {
      if !EmptyString(data) {
        SWrap();
      }
    }

    /** sWrap: the prefix, then the data in strong tags, then a break or the end of the
        paragraph. */
    method SWrap()
      requires !EmptyString(data)
      modifies this`line
      ensures Valid()
    {
      line := pre + "<strong>" + data + "</strong>" + (if s then "<br />" else "</p>");
    }

    /** __toString. */
    function ToString(): (r: string)
      reads this
      requires Valid()
      ensures r == LineText(pre, data, s)
    {
      line
    }
  }
}
