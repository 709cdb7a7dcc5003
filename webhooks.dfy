/** `init_webhook`: the event-server addresses given on the command line are
    checked one by one and appended to the webhook list. The URL parser and the
    DNS lookup are library and network calls, so they are parameters here:
    `parse` stands for `url.Parse` (`None` is a parse error) and `lookup` for
    `net.LookupIP` succeeding on a host. */
module Webhooks {
  import opened Wrappers

  /** The one part of a parsed URL the loop uses. */
  datatype Url = Url(host: string)

  /** The WARN and INFO lines the loop writes. */
  datatype LogLine =
    | InvalidUrl(addr: string)    // WARN: not a valid url; the loop stops here
    | Unresolved(host: string)    // WARN: cannot be resolved to an ip
    | WillUse(addr: string)       // INFO: will be used as eventserver webhook

  /** Every address of `addrs` parses. */
  ghost predicate AllParse(addrs: seq<string>, parse: string -> Option<Url>)
  {
    forall i :: 0 <= i < |addrs| ==> parse(addrs[i]).Some?
  }

  /** The addresses the loop appends: it returns at the first address that does
      not parse (see `AcceptedIsLongestPrefix`). */
  function AcceptedWebhooks(addrs: seq<string>, parse: string -> Option<Url>): (r: seq<string>)
  {
    if addrs == [] || parse(addrs[0]).None? then []
    else [addrs[0]] + AcceptedWebhooks(addrs[1..], parse)
  }

  /** What is appended is the longest prefix of `addrs` whose addresses all
      parse: a prefix, every address of it parses, and it stops only at the end
      of the input or at an address that does not parse. */
  lemma {:induction false} AcceptedIsLongestPrefix(addrs: seq<string>, parse: string -> Option<Url>)
    ensures var r := AcceptedWebhooks(addrs, parse);
            && |r| <= |addrs| && r == addrs[..|r|]
            && AllParse(r, parse)
            && (|r| < |addrs| ==> parse(addrs[|r|]).None?)
  {
    if addrs != [] && parse(addrs[0]).Some? {
      var rest := AcceptedWebhooks(addrs[1..], parse);
      AcceptedIsLongestPrefix(addrs[1..], parse);
      assert [addrs[0]] + addrs[1..][..|rest|] == addrs[..|rest| + 1];
    }
  }

  /** One iteration of the loop, for the appended addresses: `done` followed
      by what the remaining addresses contribute is the whole result. */
  lemma AcceptedLoopStep(addrs: seq<string>, i: nat, parse: string -> Option<Url>, done: seq<string>, total: seq<string>)
    requires i < |addrs| && done + AcceptedWebhooks(addrs[i..], parse) == total
    ensures parse(addrs[i]).None? ==> done == total
    ensures parse(addrs[i]).Some? ==> (done + [addrs[i]]) + AcceptedWebhooks(addrs[i + 1..], parse) == total
  {
    assert addrs[i..][0] == addrs[i] && addrs[i..][1..] == addrs[i + 1..];
    if parse(addrs[i]).None? {
      assert done + [] == done;
    } else {
      var rest := AcceptedWebhooks(addrs[i + 1..], parse);
      assert (done + [addrs[i]]) + rest == done + ([addrs[i]] + rest);
    }
  }

  /** One iteration of the loop, for the log. */
  lemma LogLoopStep(addrs: seq<string>, i: nat, parse: string -> Option<Url>, lookup: string -> bool,
                    logged: seq<LogLine>, total: seq<LogLine>)
    requires i < |addrs| && logged + WebhookLog(addrs[i..], parse, lookup) == total
    ensures parse(addrs[i]).None? ==> logged + [InvalidUrl(addrs[i])] == total
    ensures parse(addrs[i]).Some? ==>
              var host := parse(addrs[i]).value.host;
              (if lookup(host) then logged else logged + [Unresolved(host)])
                + [WillUse(addrs[i])] + WebhookLog(addrs[i + 1..], parse, lookup) == total
  {
    assert addrs[i..][0] == addrs[i] && addrs[i..][1..] == addrs[i + 1..];
    if parse(addrs[i]).Some? {
      var host := parse(addrs[i]).value.host;
      var warn := if lookup(host) then [] else [Unresolved(host)];
      var rest := WebhookLog(addrs[i + 1..], parse, lookup);
      assert logged + warn == if lookup(host) then logged else logged + [Unresolved(host)];
      assert (logged + warn) + [WillUse(addrs[i])] + rest == logged + (warn + [WillUse(addrs[i])] + rest);
    }
  }

  /** The lines the loop logs, in order. */
  function WebhookLog(addrs: seq<string>, parse: string -> Option<Url>, lookup: string -> bool): (r: seq<LogLine>)
  {
    if addrs == [] then []
    else match parse(addrs[0])
      case None => [InvalidUrl(addrs[0])]
      case Some(url) =>
        (if lookup(url.host) then [] else [Unresolved(url.host)])
        + [WillUse(addrs[0])]
        + WebhookLog(addrs[1..], parse, lookup)
  }

  /** The addresses announced with "will be used", in log order. */
  function Announced(log: seq<LogLine>): (r: seq<string>)
  {
    if log == [] then []
    else (if log[0].WillUse? then [log[0].addr] else []) + Announced(log[1..])
  }

  lemma {:induction false} AnnouncedAppend(a: seq<LogLine>, b: seq<LogLine>)
    ensures Announced(a + b) == Announced(a) + Announced(b)
  {
    if a == [] {
      assert a + b == b;
    } else {
      var head := if a[0].WillUse? then [a[0].addr] else [];
      assert (a + b)[0] == a[0] && (a + b)[1..] == a[1..] + b;
      assert Announced(a + b) == head + Announced(a[1..] + b);
      AnnouncedAppend(a[1..], b);
    }
  }

  /** The longest all-parsing prefix is the only prefix that parses throughout
      and stops at the end of the input or at an address that does not parse. */
  lemma {:induction false} AcceptedIsUnique(addrs: seq<string>, parse: string -> Option<Url>, p: seq<string>)
    requires |p| <= |addrs| && p == addrs[..|p|]
    requires AllParse(p, parse)
    requires |p| < |addrs| ==> parse(addrs[|p|]).None?
    ensures p == AcceptedWebhooks(addrs, parse)
  {
    if p != [] {
      assert p[0] == addrs[0] && parse(p[0]).Some?;
      assert p[1..] == addrs[1..][..|p| - 1];
      assert |p| < |addrs| ==> addrs[1..][|p| - 1] == addrs[|p|];
      AcceptedIsUnique(addrs[1..], parse, p[1..]);
    }
  }

  /** Exactly the appended addresses are announced, in the same order, whatever
      the DNS lookup says: an unresolvable host only adds a warning. */
  lemma {:induction false} AnnouncedAreAccepted(addrs: seq<string>, parse: string -> Option<Url>, lookup: string -> bool)
    ensures Announced(WebhookLog(addrs, parse, lookup)) == AcceptedWebhooks(addrs, parse)
  {
    if addrs != [] {
      match parse(addrs[0])
      case None =>
      case Some(url) =>
        var warn: seq<LogLine> := if lookup(url.host) then [] else [Unresolved(url.host)];
        var rest := WebhookLog(addrs[1..], parse, lookup);
        AnnouncedAppend(warn + [WillUse(addrs[0])], rest);
        AnnouncedAppend(warn, [WillUse(addrs[0])]);
        AnnouncedAreAccepted(addrs[1..], parse, lookup);
    }
  }

  /** The DNS lookup has no influence on which webhooks are announced. */
  lemma LookupIrrelevant(addrs: seq<string>, parse: string -> Option<Url>, lookup1: string -> bool, lookup2: string -> bool)
    ensures Announced(WebhookLog(addrs, parse, lookup1)) == Announced(WebhookLog(addrs, parse, lookup2))
  {
    AnnouncedAreAccepted(addrs, parse, lookup1);
    AnnouncedAreAccepted(addrs, parse, lookup2);
  }

  /** The log is the log of the accepted prefix, followed by one invalid-URL
      warning naming the first dropped address when there is one. */
  lemma {:induction false} LogSplitsAtDrop(addrs: seq<string>, parse: string -> Option<Url>, lookup: string -> bool)
    ensures var r := AcceptedWebhooks(addrs, parse);
            WebhookLog(addrs, parse, lookup) ==
              WebhookLog(r, parse, lookup) + if |r| < |addrs| then [InvalidUrl(addrs[|r|])] else []
  {
    if addrs != [] && parse(addrs[0]).Some? {
      var url := parse(addrs[0]).value;
      var head := (if lookup(url.host) then [] else [Unresolved(url.host)]) + [WillUse(addrs[0])];
      var r := AcceptedWebhooks(addrs, parse);
      var r' := AcceptedWebhooks(addrs[1..], parse);
      LogSplitsAtDrop(addrs[1..], parse, lookup);
      AcceptedIsLongestPrefix(addrs[1..], parse);
      var tail := if |r'| < |addrs| - 1 then [InvalidUrl(addrs[1..][|r'|])] else [];
      assert r[0] == addrs[0] && r[1..] == r';
      assert WebhookLog(r, parse, lookup) == head + WebhookLog(r', parse, lookup);
      assert WebhookLog(addrs, parse, lookup) == head + (WebhookLog(r', parse, lookup) + tail);
    }
  }

  /** When every address parses, no invalid-URL warning is logged. */
  lemma {:induction false} NoInvalidUrlWhenAllParse(addrs: seq<string>, parse: string -> Option<Url>, lookup: string -> bool)
    requires AllParse(addrs, parse)
    ensures forall line | line in WebhookLog(addrs, parse, lookup) :: !line.InvalidUrl?
  {
    if addrs != [] {
      var url := parse(addrs[0]).value;
      var warn := if lookup(url.host) then [] else [Unresolved(url.host)];
      assert AllParse(addrs[1..], parse) by {
        forall i | 0 <= i < |addrs| - 1 ensures parse(addrs[1..][i]).Some? {
          assert addrs[1..][i] == addrs[i + 1];
        }
      }
      NoInvalidUrlWhenAllParse(addrs[1..], parse, lookup);
      assert WebhookLog(addrs, parse, lookup) == warn + [WillUse(addrs[0])] + WebhookLog(addrs[1..], parse, lookup);
    }
  }

  /** An invalid-URL warning is written exactly when some address was dropped,
      it names the first dropped address, and it is the last line. */
  lemma InvalidUrlEndsLog(addrs: seq<string>, parse: string -> Option<Url>, lookup: string -> bool)
    ensures var log := WebhookLog(addrs, parse, lookup);
            var r := AcceptedWebhooks(addrs, parse);
            (|r| < |addrs| <==> log != [] && log[|log| - 1].InvalidUrl?)
            && (|r| < |addrs| ==> log[|log| - 1] == InvalidUrl(addrs[|r|]))
            && forall i :: 0 <= i < |log| - 1 ==> !log[i].InvalidUrl?
  {
    var r := AcceptedWebhooks(addrs, parse);
    var accepted := WebhookLog(r, parse, lookup);
    AcceptedIsLongestPrefix(addrs, parse);
    LogSplitsAtDrop(addrs, parse, lookup);
    NoInvalidUrlWhenAllParse(r, parse, lookup);
    var log := WebhookLog(addrs, parse, lookup);
    forall i | 0 <= i < |log| - 1 ensures !log[i].InvalidUrl? {
      assert log[i] == accepted[i] && accepted[i] in accepted;
    }
  }

  /** Assembling from two lists: the second list is only looked at when every
      address of the first one was accepted. */
  lemma {:induction false} AcceptedAppend(a: seq<string>, b: seq<string>, parse: string -> Option<Url>)
    ensures AcceptedWebhooks(a + b, parse) ==
            if |AcceptedWebhooks(a, parse)| == |a| then a + AcceptedWebhooks(b, parse)
            else AcceptedWebhooks(a, parse)
  {
    if a == [] {
      assert a + b == b;
    } else {
      assert (a + b)[0] == a[0] && (a + b)[1..] == a[1..] + b;
      if parse(a[0]).Some? {
        var rest := AcceptedWebhooks(a[1..], parse);
        AcceptedAppend(a[1..], b, parse);
        assert AcceptedWebhooks(a, parse) == [a[0]] + rest;
        assert AcceptedWebhooks(a + b, parse) == [a[0]] + AcceptedWebhooks(a[1..] + b, parse);
        if |rest| == |a| - 1 {
          assert [a[0]] + (a[1..] + AcceptedWebhooks(b, parse)) == a + AcceptedWebhooks(b, parse);
        }
      }
    }
  }
}
