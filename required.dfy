/** What FormB::processReq reports for required fields left blank. */
module RequiredFields {
  import opened Wrappers
  import opened Php
  import opened Payload

  /** The constructor's $requiredVars: one field name, or a list of names. */
  datatype Requirement = One(name: string) | Many(names: seq<string>)

  /** PHP's empty() on $_required: a blank or "0" name, or an empty list. */
  predicate NoRequirements(r: Requirement)
  {
    match r
    case One(n) => EmptyString(n)
    case Many(ns) => ns == []
  }

  /** The names processReq walks through, in order. */
  function Names(r: Requirement): seq<string>
  {
    match r
    case One(n) => [n]
    case Many(ns) => ns
  }

  /** The message of the exception processReq throws when nothing is required. */
  const NoRequirementsMessage := "processReq() called with no requirements specified. No need to call this method."

  /** The label shown for a field: underscores become spaces, then ucwords(). */
  function Label(name: string): string
  {
    Ucwords(ReplaceChar(name, '_', ' '))
  }

  /** The diagnostic for a field left blank. */
  function BlankFieldMessage(name: string): string
  {
    "You left the <strong>" + Label(name) + "</strong> field blank!"
  }

  /** setErr's test: the name is not empty and the request value is unset or empty. */
  predicate IsBlank(request: Request, name: string)
  {
    !EmptyString(name) && !IsSetNotEmpty(Lookup(request, name))
  }

  /** What setErr appends for one name. */
  function SetErrMessages(request: Request, name: string): seq<string>
  {
    if IsBlank(request, name) then [BlankFieldMessage(name)] else []
  }

  /** What processReq appends for a list of names: setErr's messages, name after name. */
  function BlankMessages(request: Request, names: seq<string>): seq<string>
    decreases |names|
  {
    if names == [] then []
    else BlankMessages(request, names[..|names| - 1]) + SetErrMessages(request, names[|names| - 1])
  }

  /** One more name checked: its messages come after those of the names before it. */
  lemma BlankMessagesPrefix(request: Request, names: seq<string>, i: nat)
    requires i < |names|
    ensures BlankMessages(request, names[..i + 1]) == BlankMessages(request, names[..i]) + SetErrMessages(request, names[i])
  {
    assert names[..i + 1][..i] == names[..i];
  }

  /** Checking two lists one after the other reports what checking their concatenation
      reports, in the same order. */
  lemma {:induction false} BlankMessagesAppend(request: Request, a: seq<string>, b: seq<string>)
    ensures BlankMessages(request, a + b) == BlankMessages(request, a) + BlankMessages(request, b)
    decreases |b|
  {
    if b == [] {
      assert a + b == a;
    } else {
      var b' := b[..|b| - 1];
      assert (a + b)[..|a + b| - 1] == a + b';
      assert (a + b)[|a + b| - 1] == b[|b| - 1];
      BlankMessagesAppend(request, a, b');
    }
  }

  /** A message is reported exactly when it names a blank field from the list. */
  lemma {:induction false} BlankMessagesMembers(request: Request, names: seq<string>, m: string)
    ensures m in BlankMessages(request, names) <==>
      exists n :: n in names && IsBlank(request, n) && m == BlankFieldMessage(n)
    decreases |names|
  {
    if names != [] {
      var init, last := names[..|names| - 1], names[|names| - 1];
      assert names == init + [last];
      BlankMessagesMembers(request, init, m);
      if exists n :: n in names && IsBlank(request, n) && m == BlankFieldMessage(n) {
        var n :| n in names && IsBlank(request, n) && m == BlankFieldMessage(n);
        if n != last { assert n in init; }
      }
    }
  }

  /** Nothing is reported exactly when no field of the list is blank. */
  lemma {:induction false} BlankMessagesNone(request: Request, names: seq<string>)
    ensures BlankMessages(request, names) == [] <==> forall n :: n in names ==> !IsBlank(request, n)
    decreases |names|
  {
    if names != [] {
      var init, last := names[..|names| - 1], names[|names| - 1];
      assert names == init + [last];
      BlankMessagesNone(request, init);
    }
  }

  /** At most one message per name, and one for every name when all are blank. */
  lemma {:induction false} BlankMessagesCount(request: Request, names: seq<string>)
    ensures |BlankMessages(request, names)| <= |names|
    ensures (forall n :: n in names ==> IsBlank(request, n)) ==> |BlankMessages(request, names)| == |names|
    decreases |names|
  {
    if names != [] {
      var init := names[..|names| - 1];
      assert forall n :: n in init ==> n in names;
      BlankMessagesCount(request, init);
    }
  }

  /** A label keeps the name's length, holds no underscore, shows a space exactly where
      the name has an underscore or a space, and starts every word with no lower-case letter. */
  lemma LabelShape(name: string)
    ensures |Label(name)| == |name|
    ensures '_' !in Label(name)
    ensures forall i :: 0 <= i < |name| ==> (Label(name)[i] == ' ' <==> name[i] == '_' || name[i] == ' ')
    ensures forall i :: 0 <= i < |name| && (i == 0 || name[i - 1] == '_' || name[i - 1] == ' ') ==>
      !('a' <= Label(name)[i] <= 'z')
  {
    var r := ReplaceChar(name, '_', ' ');
    var l := Ucwords(r);
    forall i | 0 <= i < |l|
      ensures l[i] != '_'
      ensures l[i] == ' ' <==> name[i] == '_' || name[i] == ' '
      ensures (i == 0 || name[i - 1] == '_' || name[i - 1] == ' ') ==> !('a' <= l[i] <= 'z')
    {
      assert r[i] != '_';
      if i > 0 { assert r[i - 1] == ' ' <==> name[i - 1] == '_' || name[i - 1] == ' '; }
    }
  }

  /** A word with no underscore and no word delimiter in it. */
  predicate IsPlainWord(w: string)
  {
    |w| > 0 && forall i :: 0 <= i < |w| ==> w[i] != '_' && !IsWordDelimiter(w[i])
  }

  /** A name of two words joined by an underscore, such as first_name, is labelled with
      both words capitalised and a space between them ("First Name"). */
  lemma LabelTwoWords(w1: string, w2: string)
    requires IsPlainWord(w1) && IsPlainWord(w2)
    ensures Label(w1 + "_" + w2) == [ToUpper(w1[0])] + w1[1..] + " " + [ToUpper(w2[0])] + w2[1..]
  {
    var name := w1 + "_" + w2;
    var r := ReplaceChar(name, '_', ' ');
    var l := Ucwords(r);
    var want := [ToUpper(w1[0])] + w1[1..] + " " + [ToUpper(w2[0])] + w2[1..];
    assert |l| == |want|;
    forall i | 0 <= i < |l| ensures l[i] == want[i] {
      if i == 0 {
        assert name[0] == w1[0] && want[0] == ToUpper(w1[0]);
        assert r[0] == w1[0];
        assert l[0] == ToUpper(r[0]);
      } else if i < |w1| {
        assert name[i] == w1[i] && name[i - 1] == w1[i - 1];
        assert r[i] == w1[i] && r[i - 1] == w1[i - 1];
        assert !IsWordDelimiter(w1[i - 1]);
        assert l[i] == r[i];
        assert want[i] == w1[1..][i - 1];
      } else if i == |w1| {
        assert name[i] == '_' && want[i] == ' ' && r[i] == ' ';
        assert name[i - 1] == w1[i - 1] && r[i - 1] == w1[i - 1];
        assert !IsWordDelimiter(w1[i - 1]);
      } else if i == |w1| + 1 {
        assert name[i] == w2[0] && name[i - 1] == '_';
        assert r[i] == w2[0] && r[i - 1] == ' ';
        assert l[i] == ToUpper(w2[0]);
        assert want[i] == ToUpper(w2[0]);
      } else {
        assert name[i] == w2[i - |w1| - 1] && name[i - 1] == w2[i - |w1| - 2];
        assert r[i] == w2[i - |w1| - 1] && r[i - 1] == w2[i - |w1| - 2];
        assert !IsWordDelimiter(w2[i - |w1| - 2]);
        assert l[i] == r[i];
        assert want[i] == w2[1..][i - |w1| - 2];
      }
    }
  }

  /** Two blank required fields give their two messages, in list order. */
  lemma TwoBlankFields(request: Request, a: string, b: string)
    requires IsBlank(request, a) && IsBlank(request, b)
    ensures BlankMessages(request, [a, b]) == [BlankFieldMessage(a), BlankFieldMessage(b)]
  {
    assert [a, b][..1] == [a];
    assert [a][..0] == [];
    assert BlankMessages(request, [a]) == [BlankFieldMessage(a)];
  }

  /** A filled-in field gives no message. */
  lemma FilledField()
    ensures BlankMessages(map["first_name" := Str("Ann")], ["first_name"]) == []
  {
    assert ["first_name"][..0] == [];
  }

  /** first_name is labelled "First Name". */
  lemma FirstNameLabel()
    ensures Label("first_name") == "First Name"
  {
    var w1, w2 := "first", "name";
    assert IsPlainWord(w1) && IsPlainWord(w2);
    assert "first_name" == w1 + "_" + w2;
    LabelTwoWords(w1, w2);
    assert ToUpper(w1[0]) == 'F' && ToUpper(w2[0]) == 'N';
    assert w1[1..] == "irst" && w2[1..] == "ame";
    assert ['F'] + "irst" + " " + ['N'] + "ame" == "First Name";
  }

  /** last_name is labelled "Last Name". */
  lemma LastNameLabel()
    ensures Label("last_name") == "Last Name"
  {
    var w1, w2 := "last", "name";
    assert IsPlainWord(w1) && IsPlainWord(w2);
    assert "last_name" == w1 + "_" + w2;
    LabelTwoWords(w1, w2);
    assert ToUpper(w1[0]) == 'L' && ToUpper(w2[0]) == 'N';
    assert w1[1..] == "ast" && w2[1..] == "ame";
    assert ['L'] + "ast" + " " + ['N'] + "ame" == "Last Name";
  }

  /** The blank-field messages of first_name and last_name. */
  lemma NameMessages()
    ensures BlankFieldMessage("first_name") == "You left the <strong>" + "First Name" + "</strong> field blank!"
    ensures BlankFieldMessage("last_name") == "You left the <strong>" + "Last Name" + "</strong> field blank!"
  {
    FirstNameLabel();
    LastNameLabel();
  }

  /** With an empty request, ["first_name", "last_name"] yields the messages for
      "First Name" and then "Last Name" (NameMessages spells them out). */
  lemma EmptyRequestNames()
    ensures BlankMessages(map[], ["first_name", "last_name"])
         == [BlankFieldMessage("first_name"), BlankFieldMessage("last_name")]
  {
    var request: Request := map[];
    assert IsBlank(request, "first_name") && IsBlank(request, "last_name");
    TwoBlankFields(request, "first_name", "last_name");
  }
}
