// Validation of the Rust server's configuration (src/config.rs): turning the
// deserialised `Configuration` and its `[[application]]` items into typed
// configuration items, with defaults from the top level filled in where an
// item leaves a field out. Regular expressions, Gemini request parsing and
// certificate loading are library calls; the model takes whether a pattern
// compiles and whether a request parses as parameters.
module RustConfig {
  import opened Wrappers
  import Strings
  import RustGlob

  /** The library calls the conversions make and whose outcome the model
      does not compute: `Regex::new` and `gemini::Request::new`. */
  datatype Externals = Externals(regexOk: string -> bool, requestOk: string -> bool)

  /** `GemcapsError` with its message, the errors `?` passes through from the
      two library calls, and the `unreachable!()` panic. */
  datatype ConfError =
    | Message(text: string)
    | BadRegex(pattern: string)
    | BadRequest(request: string)
    | Unreachable

  /** `Substitution`: a regex (kept as its source text) and a replacement. */
  datatype Substitution = Substitution(pattern: string, replace: string)

  const EXPECTED_STRING := "Expected a string"
  const SINGLE_SEPARATOR := "Expected a single separator e.g. `#foo#bar`"

  /** `Substitution::new`: the first character is the separator, and the
      rest must be exactly a pattern and a replacement around one more. */
  function NewSubstitution(s: string, ext: Externals): (r: Result<Substitution, ConfError>)
    ensures s == [] ==> r == Err(Message(EXPECTED_STRING))
    ensures r.Ok? ==> s == [s[0]] + r.value.pattern + [s[0]] + r.value.replace
    ensures r.Ok? ==> s[0] !in r.value.pattern && s[0] !in r.value.replace
    ensures r.Ok? ==> ext.regexOk(r.value.pattern)
  {
    if s == [] then Err(Message(EXPECTED_STRING))
    else
      var segments := Strings.Split(s[1..], s[0]);
      if |segments| > 2 || |segments| <= 1 then Err(Message(SINGLE_SEPARATOR))
      else if !ext.regexOk(segments[0]) then Err(BadRegex(segments[0]))
      else
        assert s[1..] == segments[0] + [s[0]] + segments[1] by {
          Strings.JoinSplit(s[1..], s[0]);
          assert Strings.Join(segments, [s[0]]) == segments[0] + [s[0]] + Strings.Join(segments[1..], [s[0]]);
        }
        Ok(Substitution(segments[0], segments[1]))
  }

  /** Every separator-pattern-separator-replacement text whose pattern
      compiles is accepted and gives back its two parts. */
  lemma SubstitutionParts(c: char, pattern: string, replace: string, ext: Externals)
    requires c !in pattern && c !in replace && ext.regexOk(pattern)
    ensures NewSubstitution([c] + pattern + [c] + replace, ext) == Ok(Substitution(pattern, replace))
  {
    var s := [c] + pattern + [c] + replace;
    assert s[1..] == Strings.Join([pattern, replace], [c]);
    Strings.SplitJoin([pattern, replace], c);
  }

  /** A text with no second separator, or with two more, is refused. */
  lemma SubstitutionSeparators(s: string, ext: Externals)
    requires |s| > 0
    ensures |Strings.Split(s[1..], s[0])| != 2 ==> NewSubstitution(s, ext) == Err(Message(SINGLE_SEPARATOR))
  {
  }

  /** The test configuration's `substitution = "#/app#"`. */
  lemma SubstitutionExample(ext: Externals)
    requires ext.regexOk("/app")
    ensures NewSubstitution("#/app#", ext) == Ok(Substitution("/app", ""))
  {
    SubstitutionParts('#', "/app", "", ext);
    assert "#/app#" == ['#'] + "/app" + ['#'] + "";
  }

  /** `ConfigurationItem`: one `[[application]]` table as deserialised. */
  datatype ConfigurationItem = ConfigurationItem(
    domainNames: Option<seq<string>>,
    errorLog: Option<string>,
    accessLog: Option<string>,
    rule: Option<string>,
    substitution: Option<string>,
    redirect: Option<string>,
    proxy: Option<string>,
    cgiRoot: Option<string>,
    fileRoot: Option<string>)

  /** Fill-if-absent for one field. */
  function Fill<T>(own: Option<T>, default: Option<T>): (r: Option<T>)
    ensures own.Some? ==> r == own
    ensures own.None? ==> r == default
  {
    if own.None? then default else own
  }

  /** What `populate_defaults` leaves: the five shared fields filled where
      they were absent, the kind fields as they were. */
  function WithDefaults(item: ConfigurationItem, defaults: ConfigurationItem): ConfigurationItem {
    item.(errorLog := Fill(item.errorLog, defaults.errorLog),
          accessLog := Fill(item.accessLog, defaults.accessLog),
          rule := Fill(item.rule, defaults.rule),
          substitution := Fill(item.substitution, defaults.substitution),
          domainNames := Fill(item.domainNames, defaults.domainNames))
  }

  /** `ConfigurationItem::populate_defaults`, one field after the other. */
  method PopulateDefaults(item: ConfigurationItem, defaults: ConfigurationItem) returns (r: ConfigurationItem)
    ensures r == WithDefaults(item, defaults)
  {
    r := item;
    if defaults.errorLog.Some? && r.errorLog == None {
      r := r.(errorLog := defaults.errorLog);
    }
    if defaults.accessLog.Some? && r.accessLog == None {
      r := r.(accessLog := defaults.accessLog);
    }
    if defaults.rule.Some? && r.rule == None {
      r := r.(rule := defaults.rule);
    }
    if defaults.substitution.Some? && r.substitution == None {
      r := r.(substitution := defaults.substitution);
    }
    if defaults.domainNames.Some? && r.domainNames == None {
      r := r.(domainNames := defaults.domainNames);
    }
  }

  /** Defaults never overwrite a field the item sets, never touch the kind
      fields, and filling twice is filling once. */
  lemma DefaultsOnlyFill(item: ConfigurationItem, defaults: ConfigurationItem)
    ensures var r := WithDefaults(item, defaults);
      && (item.errorLog.Some? ==> r.errorLog == item.errorLog)
      && (item.accessLog.Some? ==> r.accessLog == item.accessLog)
      && (item.rule.Some? ==> r.rule == item.rule)
      && (item.substitution.Some? ==> r.substitution == item.substitution)
      && (item.domainNames.Some? ==> r.domainNames == item.domainNames)
      && r.redirect == item.redirect && r.proxy == item.proxy
      && r.cgiRoot == item.cgiRoot && r.fileRoot == item.fileRoot
      && WithDefaults(r, defaults) == r
  {
  }

  datatype RedirectConf = RedirectConf(
    domainNames: seq<RustGlob.Glob>, redirect: string,
    errorLog: Option<string>, accessLog: Option<string>)

  /** The proxy target is kept as the text `Request::new` accepted. */
  datatype ProxyConf = ProxyConf(
    domainNames: seq<RustGlob.Glob>, proxy: string,
    errorLog: Option<string>, accessLog: Option<string>,
    rule: Option<string>, substitution: Option<Substitution>)

  datatype CGIConf = CGIConf(
    domainNames: seq<RustGlob.Glob>, cgiRoot: string,
    errorLog: Option<string>, accessLog: Option<string>,
    rule: Option<string>, substitution: Option<Substitution>)

  datatype FileConf = FileConf(
    domainNames: seq<RustGlob.Glob>, fileRoot: string,
    errorLog: Option<string>, accessLog: Option<string>,
    rule: Option<string>, substitution: Option<Substitution>)

  datatype ConfItem =
    | Redirect(redirectConf: RedirectConf)
    | Proxy(proxyConf: ProxyConf)
    | CGI(cgiConf: CGIConf)
    | File(fileConf: FileConf)

  /** `Glob::new` on each domain name. */
  function Globs(names: seq<string>): (gs: seq<RustGlob.Glob>)
    ensures |gs| == |names|
    ensures forall i :: 0 <= i < |names| ==> gs[i].matchers == Strings.Split(names[i], '*')
  {
    if names == [] then [] else [RustGlob.Glob(Strings.Split(names[0], '*'))] + Globs(names[1..])
  }

  /** `assert_none`: a key that does not belong to the item kind. */
  function AssertNone<T>(value: Option<T>, name: string): (r: Result<(), ConfError>)
    ensures r.Ok? <==> value.None?
    ensures r.Err? ==> r.error == Message("Unexpected token `" + name + "`")
  {
    match value
    case Some(_) => Err(Message("Unexpected token `" + name + "`"))
    case None => Ok(())
  }

  const EXPECTED_DOMAINS := "Expected domain_names"
  /** The message every kind gives for its missing kind field. */
  const EXPECTED_REDIRECT := "Expected Redirect"

  function OptionalRule(rule: Option<string>, ext: Externals): (r: Result<Option<string>, ConfError>)
    ensures r.Ok? <==> (rule.Some? ==> ext.regexOk(rule.value))
    ensures r.Ok? ==> r.value == rule
  {
    match rule
    case Some(p) => if ext.regexOk(p) then Ok(Some(p)) else Err(BadRegex(p))
    case None => Ok(None)
  }

  function OptionalSubstitution(s: Option<string>, ext: Externals): (r: Result<Option<Substitution>, ConfError>)
    ensures s.None? ==> r == Ok(None)
    ensures s.Some? ==> (r.Ok? <==> NewSubstitution(s.value, ext).Ok?)
    ensures s.Some? && r.Ok? ==> r.value == Some(NewSubstitution(s.value, ext).value)
  {
    match s
    case Some(t) =>
      var sub := NewSubstitution(t, ext);
      if sub.Ok? then Ok(Some(sub.value)) else Err(sub.error)
    case None => Ok(None)
  }

  /** `RedirectConf::try_from`. */
  function RedirectFrom(v: ConfigurationItem): (r: Result<RedirectConf, ConfError>)
    ensures r.Ok? <==> v.cgiRoot.None? && v.fileRoot.None? && v.proxy.None? && v.rule.None?
                       && v.substitution.None? && v.domainNames.Some? && v.redirect.Some?
    ensures r.Ok? ==> r.value == RedirectConf(Globs(v.domainNames.value), v.redirect.value, v.errorLog, v.accessLog)
  {
    if v.cgiRoot.Some? then Err(AssertNone(v.cgiRoot, "cgi_root").error)
    else if v.fileRoot.Some? then Err(AssertNone(v.fileRoot, "file_root").error)
    else if v.proxy.Some? then Err(AssertNone(v.proxy, "proxy").error)
    else if v.rule.Some? then Err(AssertNone(v.rule, "rule").error)
    else if v.substitution.Some? then Err(AssertNone(v.substitution, "substitution").error)
    else if v.domainNames.None? then Err(Message(EXPECTED_DOMAINS))
    else if v.redirect.None? then Err(Message(EXPECTED_REDIRECT))
    else Ok(RedirectConf(Globs(v.domainNames.value), v.redirect.value, v.errorLog, v.accessLog))
  }

  /** `ProxyConf::try_from`. */
  function ProxyFrom(v: ConfigurationItem, ext: Externals): (r: Result<ProxyConf, ConfError>)
    ensures r.Ok? <==> v.cgiRoot.None? && v.fileRoot.None? && v.redirect.None?
                       && v.domainNames.Some? && v.proxy.Some? && ext.requestOk(v.proxy.value)
                       && OptionalRule(v.rule, ext).Ok? && OptionalSubstitution(v.substitution, ext).Ok?
    ensures r.Ok? ==> r.value.domainNames == Globs(v.domainNames.value) && r.value.proxy == v.proxy.value
                      && r.value.errorLog == v.errorLog && r.value.accessLog == v.accessLog
                      && r.value.rule == v.rule
    ensures r.Ok? && v.substitution.None? ==> r.value.substitution.None?
    ensures r.Ok? && v.substitution.Some? ==> r.value.substitution == Some(NewSubstitution(v.substitution.value, ext).value)
  {
    if v.cgiRoot.Some? then Err(AssertNone(v.cgiRoot, "cgi_root").error)
    else if v.fileRoot.Some? then Err(AssertNone(v.fileRoot, "file_root").error)
    else if v.redirect.Some? then Err(AssertNone(v.redirect, "redirect").error)
    else if v.domainNames.None? then Err(Message(EXPECTED_DOMAINS))
    else if v.proxy.None? then Err(Message(EXPECTED_REDIRECT))
    else if !ext.requestOk(v.proxy.value) then Err(BadRequest(v.proxy.value))
    else
      var rule := OptionalRule(v.rule, ext);
      if rule.Err? then Err(rule.error)
      else
        var sub := OptionalSubstitution(v.substitution, ext);
        if sub.Err? then Err(sub.error)
        else Ok(ProxyConf(Globs(v.domainNames.value), v.proxy.value, v.errorLog, v.accessLog, rule.value, sub.value))
  }

  /** `CGIConf::try_from`. */
  function CgiFrom(v: ConfigurationItem, ext: Externals): (r: Result<CGIConf, ConfError>)
    ensures r.Ok? <==> v.proxy.None? && v.fileRoot.None? && v.redirect.None?
                       && v.domainNames.Some? && v.cgiRoot.Some?
                       && OptionalRule(v.rule, ext).Ok? && OptionalSubstitution(v.substitution, ext).Ok?
    ensures r.Ok? ==> r.value.domainNames == Globs(v.domainNames.value) && r.value.cgiRoot == v.cgiRoot.value
                      && r.value.errorLog == v.errorLog && r.value.accessLog == v.accessLog
                      && r.value.rule == v.rule
    ensures r.Ok? && v.substitution.None? ==> r.value.substitution.None?
    ensures r.Ok? && v.substitution.Some? ==> r.value.substitution == Some(NewSubstitution(v.substitution.value, ext).value)
  {
    if v.proxy.Some? then Err(AssertNone(v.proxy, "proxy").error)
    else if v.fileRoot.Some? then Err(AssertNone(v.fileRoot, "file_root").error)
    else if v.redirect.Some? then Err(AssertNone(v.redirect, "redirect").error)
    else if v.domainNames.None? then Err(Message(EXPECTED_DOMAINS))
    else if v.cgiRoot.None? then Err(Message(EXPECTED_REDIRECT))
    else
      var rule := OptionalRule(v.rule, ext);
      if rule.Err? then Err(rule.error)
      else
        var sub := OptionalSubstitution(v.substitution, ext);
        if sub.Err? then Err(sub.error)
        else Ok(CGIConf(Globs(v.domainNames.value), v.cgiRoot.value, v.errorLog, v.accessLog, rule.value, sub.value))
  }

  /** `FileConf::try_from`. */
  function FileFrom(v: ConfigurationItem, ext: Externals): (r: Result<FileConf, ConfError>)
    ensures r.Ok? <==> v.proxy.None? && v.cgiRoot.None? && v.redirect.None?
                       && v.domainNames.Some? && v.fileRoot.Some?
                       && OptionalRule(v.rule, ext).Ok? && OptionalSubstitution(v.substitution, ext).Ok?
    ensures r.Ok? ==> r.value.domainNames == Globs(v.domainNames.value) && r.value.fileRoot == v.fileRoot.value
                      && r.value.errorLog == v.errorLog && r.value.accessLog == v.accessLog
                      && r.value.rule == v.rule
    ensures r.Ok? && v.substitution.None? ==> r.value.substitution.None?
    ensures r.Ok? && v.substitution.Some? ==> r.value.substitution == Some(NewSubstitution(v.substitution.value, ext).value)
  {
    if v.proxy.Some? then Err(AssertNone(v.proxy, "proxy").error)
    else if v.cgiRoot.Some? then Err(AssertNone(v.cgiRoot, "cgi_root").error)
    else if v.redirect.Some? then Err(AssertNone(v.redirect, "redirect").error)
    else if v.domainNames.None? then Err(Message(EXPECTED_DOMAINS))
    else if v.fileRoot.None? then Err(Message(EXPECTED_REDIRECT))
    else
      var rule := OptionalRule(v.rule, ext);
      if rule.Err? then Err(rule.error)
      else
        var sub := OptionalSubstitution(v.substitution, ext);
        if sub.Err? then Err(sub.error)
        else Ok(FileConf(Globs(v.domainNames.value), v.fileRoot.value, v.errorLog, v.accessLog, rule.value, sub.value))
  }

  /** `ConfItem::try_from`: the kind is chosen redirect first, then proxy,
      then `cgi_root`, then `file_root`; an item with none of them reaches
      the `unreachable!()`. */
  function ItemFrom(v: ConfigurationItem, ext: Externals): (r: Result<ConfItem, ConfError>)
    ensures r.Ok? && r.value.Redirect? <==> RedirectFrom(v).Ok?
    ensures r.Ok? && r.value.Proxy? <==> v.redirect.None? && ProxyFrom(v, ext).Ok?
    ensures r.Ok? && r.value.CGI? <==> v.redirect.None? && v.proxy.None? && CgiFrom(v, ext).Ok?
    ensures r.Ok? && r.value.File? <==> v.redirect.None? && v.proxy.None? && v.cgiRoot.None? && FileFrom(v, ext).Ok?
    ensures r == Err(Unreachable) <==> v.redirect.None? && v.proxy.None? && v.cgiRoot.None? && v.fileRoot.None?
    ensures v.domainNames.None? ==> r.Err?
    ensures r.Ok? && r.value.Redirect? ==> r.value.redirectConf == RedirectFrom(v).value
    ensures r.Ok? && r.value.Proxy? ==> r.value.proxyConf == ProxyFrom(v, ext).value
    ensures r.Ok? && r.value.CGI? ==> r.value.cgiConf == CgiFrom(v, ext).value
    ensures r.Ok? && r.value.File? ==> r.value.fileConf == FileFrom(v, ext).value
    ensures r.Err? && v.redirect.Some? ==> r.error == RedirectFrom(v).error
  {
    if v.redirect.Some? then
      var c := RedirectFrom(v); if c.Ok? then Ok(Redirect(c.value)) else Err(c.error)
    else if v.proxy.Some? then
      var c := ProxyFrom(v, ext); if c.Ok? then Ok(Proxy(c.value)) else Err(c.error)
    else if v.cgiRoot.Some? then
      var c := CgiFrom(v, ext); if c.Ok? then Ok(CGI(c.value)) else Err(c.error)
    else if v.fileRoot.Some? then
      var c := FileFrom(v, ext); if c.Ok? then Ok(File(c.value)) else Err(c.error)
    else Err(Unreachable)
  }

  /** A redirect item is refused exactly when it also names a CGI root, a
      file root, a proxy, a rule or a substitution, or has no domains. */
  lemma RedirectExclusive(v: ConfigurationItem, ext: Externals)
    requires v.redirect.Some?
    ensures ItemFrom(v, ext).Ok? <==>
      v.cgiRoot.None? && v.fileRoot.None? && v.proxy.None? && v.rule.None? && v.substitution.None? && v.domainNames.Some?
  {
  }

  /** `Configuration`: the whole deserialised file. */
  datatype Configuration = Configuration(
    listen: Option<string>,
    certificate: Option<string>,
    certificateKey: Option<string>,
    pidFile: Option<string>,
    workerProcesses: Option<nat>,
    errorLog: Option<string>,
    accessLog: Option<string>,
    rule: Option<string>,
    substitution: Option<string>,
    domainNames: Option<seq<string>>,
    application: seq<ConfigurationItem>)

  /** The certificate is kept as its two file names, as `Cert::new` gets them. */
  datatype Cert = Cert(certificate: string, key: string)

  /** `CapsuleConf` as `try_from` leaves it: no server configuration yet and
      an empty name. */
  datatype CapsuleConf = CapsuleConf(
    listen: string,
    certificate: Option<Cert>,
    pidFile: Option<string>,
    workerProcesses: Option<nat>,
    items: seq<ConfItem>,
    errorLog: Option<string>,
    name: string)

  const DEFAULT_LISTEN := "0.0.0.0:1965"
  const CERT_PAIR := "certificate and certificate_key are needed together"

  /** The top-level values every item inherits. */
  function Defaults(value: Configuration): ConfigurationItem {
    ConfigurationItem(value.domainNames, value.errorLog, value.accessLog, value.rule,
                      value.substitution, None, None, None, None)
  }

  /** The items converted in order; the first failure stops the conversion. */
  function ConvertItems(apps: seq<ConfigurationItem>, defaults: ConfigurationItem, ext: Externals): (r: Result<seq<ConfItem>, ConfError>)
    ensures r.Ok? ==> |r.value| == |apps|
    ensures r.Ok? <==> forall i :: 0 <= i < |apps| ==> ItemFrom(WithDefaults(apps[i], defaults), ext).Ok?
    ensures r.Ok? ==> forall i :: 0 <= i < |apps| ==> r.value[i] == ItemFrom(WithDefaults(apps[i], defaults), ext).value
    decreases |apps|
  {
    if apps == [] then Ok([])
    else
      var first := ItemFrom(WithDefaults(apps[0], defaults), ext);
      if first.Err? then Err(first.error)
      else
        var rest := ConvertItems(apps[1..], defaults, ext);
        if rest.Err? then Err(rest.error) else Ok([first.value] + rest.value)
  }

  /** `CapsuleConf::try_from`: every item gets the top-level defaults and is
      converted in order, then the certificate pair is checked. */
  method CapsuleConfFrom(value: Configuration, ext: Externals) returns (r: Result<CapsuleConf, ConfError>)
    ensures ConvertItems(value.application, Defaults(value), ext).Err? ==>
              r == Err(ConvertItems(value.application, Defaults(value), ext).error)
    ensures ConvertItems(value.application, Defaults(value), ext).Ok? ==>
              (r.Ok? <==> (value.certificate.Some? <==> value.certificateKey.Some?))
    ensures r.Err? && ConvertItems(value.application, Defaults(value), ext).Ok? ==> r.error == Message(CERT_PAIR)
    ensures r.Ok? ==> r.value.items == ConvertItems(value.application, Defaults(value), ext).value
    ensures r.Ok? ==> r.value.listen == (if value.listen.Some? then value.listen.value else DEFAULT_LISTEN)
    ensures r.Ok? ==> (r.value.certificate.Some? <==> value.certificate.Some?)
    ensures r.Ok? && r.value.certificate.Some? ==>
              r.value.certificate.value == Cert(value.certificate.value, value.certificateKey.value)
    ensures r.Ok? ==> r.value.errorLog == value.errorLog && r.value.pidFile == value.pidFile
                      && r.value.workerProcesses == value.workerProcesses && r.value.name == ""
  {
    var converted := ConvertAll(value.application, Defaults(value), ext);
    if converted.Err? {
      return Err(converted.error);
    }
    var items := converted.value;
    var certificate: Option<Cert>;
    if value.certificate.Some? && value.certificateKey.Some? {
      certificate := Some(Cert(value.certificate.value, value.certificateKey.value));
    } else if value.certificate.None? && value.certificateKey.None? {
      certificate := None;
    } else {
      return Err(Message(CERT_PAIR));
    }
    var listen := if value.listen.Some? then value.listen.value else DEFAULT_LISTEN;
    r := Ok(CapsuleConf(listen, certificate, value.pidFile, value.workerProcesses, items, value.errorLog, ""));
  }

  /** The loop of `try_from`: each item gets the defaults and is converted,
      the first failure ending the loop. */
  method ConvertAll(application: seq<ConfigurationItem>, defaults: ConfigurationItem, ext: Externals)
    returns (r: Result<seq<ConfItem>, ConfError>)
    ensures r == ConvertItems(application, defaults, ext)
  {
    var items: seq<ConfItem> := [];
    var i := 0;
    while i < |application|
      invariant 0 <= i <= |application|
      invariant ConvertItems(application[..i], defaults, ext) == Ok(items)
    {
      var item := PopulateDefaults(application[i], defaults);
      var converted := ItemFrom(item, ext);
      ConvertItemsAppend(application[..i], application[i], defaults, ext);
      assert application[..i + 1] == application[..i] + [application[i]];
      if converted.Err? {
        ConvertItemsPrefixErr(application, i + 1, defaults, ext);
        return Err(converted.error);
      }
      items := items + [converted.value];
      i := i + 1;
    }
    assert application[..i] == application;
    return Ok(items);
  }

  /** Converting one more item extends the converted prefix, or fails with
      that item's error. */
  lemma {:induction false} ConvertItemsAppend(apps: seq<ConfigurationItem>, app: ConfigurationItem, defaults: ConfigurationItem, ext: Externals)
    requires ConvertItems(apps, defaults, ext).Ok?
    ensures var c := ItemFrom(WithDefaults(app, defaults), ext);
      ConvertItems(apps + [app], defaults, ext)
        == if c.Ok? then Ok(ConvertItems(apps, defaults, ext).value + [c.value]) else Err(c.error)
    decreases |apps|
  {
    if apps == [] {
      assert [app][1..] == [];
      assert [] + [app] == [app];
      var c := ItemFrom(WithDefaults(app, defaults), ext);
      assert c.Ok? ==> [] + [c.value] == [c.value] + [];
    } else {
      assert (apps + [app])[1..] == apps[1..] + [app];
      ConvertItemsAppend(apps[1..], app, defaults, ext);
      var c := ItemFrom(WithDefaults(app, defaults), ext);
      if c.Ok? {
        var first := ItemFrom(WithDefaults(apps[0], defaults), ext).value;
        var rest := ConvertItems(apps[1..], defaults, ext).value;
        assert [first] + (rest + [c.value]) == ([first] + rest) + [c.value];
      }
    }
  }

  /** A failure in a prefix is the failure of the whole list. */
  lemma {:induction false} ConvertItemsPrefixErr(apps: seq<ConfigurationItem>, n: nat, defaults: ConfigurationItem, ext: Externals)
    requires n <= |apps| && ConvertItems(apps[..n], defaults, ext).Err?
    ensures ConvertItems(apps, defaults, ext) == ConvertItems(apps[..n], defaults, ext)
    decreases n
  {
    assert apps[..n][0] == apps[0];
    if ItemFrom(WithDefaults(apps[0], defaults), ext).Ok? {
      assert apps[..n][1..] == apps[1..][..n - 1];
      ConvertItemsPrefixErr(apps[1..], n - 1, defaults, ext);
    }
  }

  /** An item with only the given fields set. */
  const EMPTY_ITEM := ConfigurationItem(None, None, None, None, None, None, None, None, None)

  /** `test_invalid_redirect`: a redirect item with a rule is refused. */
  lemma InvalidRedirectExample(ext: Externals)
    ensures ItemFrom(EMPTY_ITEM.(domainNames := Some(["foobar.com"]), redirect := Some("gemini://localhost:1970"),
                                 rule := Some("/app")), ext)
         == Err(Message("Unexpected token `rule`"))
  {
    assert "Unexpected token `" + "rule" + "`" == "Unexpected token `rule`";
  }

  /** The four `[[application]]` tables and the top level of
      `test_full_config`. */
  const FULL_APPS := [
    EMPTY_ITEM.(domainNames := Some(["*.foobar.com"]), redirect := Some("gemini://localhost:1970")),
    EMPTY_ITEM.(rule := Some("^/app/"), proxy := Some("gemini://localhost:1971")),
    EMPTY_ITEM.(cgiRoot := Some("gemini/foobar"), rule := Some("^/cgi-bin/")),
    EMPTY_ITEM.(fileRoot := Some("gemini/foobar"))]

  const FULL_CONFIG := Configuration(None, Some("certs/foobar.crt"), Some("certs/foobar.key"), None, None,
                                     Some("logs/error.log"), Some("logs/access.log"), None, None,
                                     Some(["foobar.com"]), FULL_APPS)

  /** Each of the four tables converts, to the kind its kind field names,
      with the top-level logs and domains where it has none. */
  lemma FullConfigItems(ext: Externals)
    requires forall p :: ext.regexOk(p) && ext.requestOk(p)
    ensures var c := ConvertItems(FULL_APPS, Defaults(FULL_CONFIG), ext);
      && c.Ok? && |c.value| == 4
      && c.value[0].Redirect? && c.value[1].Proxy? && c.value[2].CGI? && c.value[3].File?
      && c.value[0].redirectConf.errorLog == Some("logs/error.log")
      && c.value[1].proxyConf.accessLog == Some("logs/access.log")
      && c.value[1].proxyConf.domainNames == Globs(["foobar.com"])
  {
    var d := Defaults(FULL_CONFIG);
    forall i | 0 <= i < 4 ensures ItemFrom(WithDefaults(FULL_APPS[i], d), ext).Ok? {
    }
    assert ItemFrom(WithDefaults(FULL_APPS[0], d), ext).value.Redirect?;
    assert ItemFrom(WithDefaults(FULL_APPS[1], d), ext).value.Proxy?;
    assert ItemFrom(WithDefaults(FULL_APPS[2], d), ext).value.CGI?;
    assert ItemFrom(WithDefaults(FULL_APPS[3], d), ext).value.File?;
  }

  /** `test_full_config`: four items of the four kinds, in order, the first
      with the top-level error log, the second with the top-level access log
      and domains. */
  method FullConfigScenario(ext: Externals) returns (r: Result<CapsuleConf, ConfError>)
    requires forall p :: ext.regexOk(p) && ext.requestOk(p)
    ensures r.Ok? && |r.value.items| == 4
    ensures r.value.items[0].Redirect? && r.value.items[1].Proxy?
    ensures r.value.items[2].CGI? && r.value.items[3].File?
    ensures r.value.items[0].redirectConf.errorLog == Some("logs/error.log")
    ensures r.value.items[1].proxyConf.accessLog == Some("logs/access.log")
    ensures r.value.items[1].proxyConf.domainNames == Globs(["foobar.com"])
    ensures r.value.listen == DEFAULT_LISTEN
    ensures r.value.certificate == Some(Cert("certs/foobar.crt", "certs/foobar.key"))
  {
    FullConfigItems(ext);
    r := CapsuleConfFrom(FULL_CONFIG, ext);
  }
}
