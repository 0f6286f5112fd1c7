// The deserialised CGI and redirect items of the Rust server's newer
// configuration code (src/config/cgi.rs, src/config/redirect.rs): records
// whose `apply_default_*` methods fill a field in place only when the item
// left it out. A compiled regular expression is kept as its source text.
module RustConfItems {
  import opened Wrappers
  import RustGlob

  /** `CGIConf` of src/config/cgi.rs. */
  class CgiConf {
    var domainNames: seq<RustGlob.Glob>
    var cgiRoot: string
    var errorLog: Option<string>
    var accessLog: Option<string>
    var rule: Option<string>

    constructor (domainNames: seq<RustGlob.Glob>, cgiRoot: string, errorLog: Option<string>,
                 accessLog: Option<string>, rule: Option<string>)
      ensures this.domainNames == domainNames && this.cgiRoot == cgiRoot
      ensures this.errorLog == errorLog && this.accessLog == accessLog && this.rule == rule
    {
      this.domainNames := domainNames;
      this.cgiRoot := cgiRoot;
      this.errorLog := errorLog;
      this.accessLog := accessLog;
      this.rule := rule;
    }

    /** `rule()`: the item's own regular expression, if it has one. */
    function Rule(): (r: Option<string>)
      reads this
      ensures r.Some? <==> rule.Some?
      ensures r.Some? ==> r.value == rule.value
    {
      match rule
      case Some(re) => Some(re)
      case None => None
    }

    /** `apply_default_domain_names`: an empty list takes the defaults; a
        second application changes nothing. */
    method ApplyDefaultDomainNames(defaults: seq<RustGlob.Glob>)
      modifies this
      ensures domainNames == (if old(domainNames) == [] then defaults else old(domainNames))
      ensures domainNames == (if domainNames == [] then defaults else domainNames)
      ensures cgiRoot == old(cgiRoot) && errorLog == old(errorLog)
      ensures accessLog == old(accessLog) && rule == old(rule)
    {
      if domainNames == [] {
        domainNames := defaults;
      }
    }

    /** `apply_default_rule`: only an item without a rule takes it. */
    method ApplyDefaultRule(default: string)
      modifies this
      ensures rule == (if old(rule).None? then Some(default) else old(rule))
      ensures rule.Some?
      ensures domainNames == old(domainNames) && cgiRoot == old(cgiRoot)
      ensures errorLog == old(errorLog) && accessLog == old(accessLog)
    {
      if rule.None? {
        rule := Some(default);
      }
    }

    /** `apply_default_error_log`. */
    method ApplyDefaultErrorLog(default: string)
      modifies this
      ensures errorLog == (if old(errorLog).None? then Some(default) else old(errorLog))
      ensures errorLog.Some?
      ensures domainNames == old(domainNames) && cgiRoot == old(cgiRoot)
      ensures accessLog == old(accessLog) && rule == old(rule)
    {
      if errorLog.None? {
        errorLog := Some(default);
      }
    }

    /** `apply_default_access_log`. */
    method ApplyDefaultAccessLog(default: string)
      modifies this
      ensures accessLog == (if old(accessLog).None? then Some(default) else old(accessLog))
      ensures accessLog.Some?
      ensures domainNames == old(domainNames) && cgiRoot == old(cgiRoot)
      ensures errorLog == old(errorLog) && rule == old(rule)
    {
      if accessLog.None? {
        accessLog := Some(default);
      }
    }
  }

  /** `RedirectConf` of src/config/redirect.rs. */
  class RedirectConf {
    var domainNames: seq<RustGlob.Glob>
    var redirect: string
    var errorLog: Option<string>
    var accessLog: Option<string>

    constructor (domainNames: seq<RustGlob.Glob>, redirect: string, errorLog: Option<string>,
                 accessLog: Option<string>)
      ensures this.domainNames == domainNames && this.redirect == redirect
      ensures this.errorLog == errorLog && this.accessLog == accessLog
    {
      this.domainNames := domainNames;
      this.redirect := redirect;
      this.errorLog := errorLog;
      this.accessLog := accessLog;
    }

    /** `rule()`: a redirect item never has a rule. */
    function Rule(): (r: Option<string>)
      ensures r.None?
    {
      None
    }

    /** `apply_default_domain_names`: an empty list takes the defaults. */
    method ApplyDefaultDomainNames(defaults: seq<RustGlob.Glob>)
      modifies this
      ensures domainNames == (if old(domainNames) == [] then defaults else old(domainNames))
      ensures domainNames == (if domainNames == [] then defaults else domainNames)
      ensures redirect == old(redirect) && errorLog == old(errorLog) && accessLog == old(accessLog)
    {
      if domainNames == [] {
        domainNames := defaults;
      }
    }

    /** `apply_default_rule`: ignored, the item keeps no rule. */
    method ApplyDefaultRule(default: string)
      ensures Rule().None?
    {
    }

    /** `apply_default_error_log`. */
    method ApplyDefaultErrorLog(default: string)
      modifies this
      ensures errorLog == (if old(errorLog).None? then Some(default) else old(errorLog))
      ensures errorLog.Some?
      ensures domainNames == old(domainNames) && redirect == old(redirect) && accessLog == old(accessLog)
    {
      if errorLog.None? {
        errorLog := Some(default);
      }
    }

    /** `apply_default_access_log`. */
    method ApplyDefaultAccessLog(default: string)
      modifies this
      ensures accessLog == (if old(accessLog).None? then Some(default) else old(accessLog))
      ensures accessLog.Some?
      ensures domainNames == old(domainNames) && redirect == old(redirect) && errorLog == old(errorLog)
    {
      if accessLog.None? {
        accessLog := Some(default);
      }
    }
  }

  /** Applying every default twice leaves a CGI item as applying them once
      does (`once` is the state after the first round), and an item's own
      values survive. */
  method CgiDefaultsTwice(c: CgiConf, domains: seq<RustGlob.Glob>, rule: string, errorLog: string, accessLog: string)
    returns (once: (seq<RustGlob.Glob>, Option<string>, Option<string>, Option<string>))
    modifies c
    ensures once == (if old(c.domainNames) == [] then domains else old(c.domainNames),
                     if old(c.rule).None? then Some(rule) else old(c.rule),
                     if old(c.errorLog).None? then Some(errorLog) else old(c.errorLog),
                     if old(c.accessLog).None? then Some(accessLog) else old(c.accessLog))
    ensures (c.domainNames, c.rule, c.errorLog, c.accessLog) == once
    ensures c.cgiRoot == old(c.cgiRoot)
  {
    c.ApplyDefaultDomainNames(domains);
    c.ApplyDefaultRule(rule);
    c.ApplyDefaultErrorLog(errorLog);
    c.ApplyDefaultAccessLog(accessLog);
    once := (c.domainNames, c.rule, c.errorLog, c.accessLog);
    c.ApplyDefaultDomainNames(domains);
    c.ApplyDefaultRule(rule);
    c.ApplyDefaultErrorLog(errorLog);
    c.ApplyDefaultAccessLog(accessLog);
  }
}
