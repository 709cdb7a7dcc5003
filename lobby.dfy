/** The package-level state of the lobby server that `main` and its `init_*`
    helpers update in place: the logical clock `TIME`, the documentation page
    `DOCHTML` and the webhook list `EVTSERVER_WEBHOOKS`. */
module Lobby {
  import opened Wrappers
  import opened Clock
  import opened DocTemplate
  import opened Webhooks
  import opened Startup

  /** The error a scheduler job reports; the ticker never reports one. */
  datatype JobError = JobError(message: string)

  class LobbyServer {
    var time: uint64
    var docHtml: string
    var webhooks: seq<string>

    /** The process as it starts: Go's zero values and the embedded page. */
    constructor (embeddedDoc: string)
      ensures time == 0 && docHtml == embeddedDoc && webhooks == []
    {
      time := 0;
      docHtml := embeddedDoc;
      webhooks := [];
    }

    /** `init_scheduler`: the clock is reset and the ticker job is registered
        (registration and timing belong to the scheduler library). */
    method InitScheduler() returns (err: Option<JobError>)
      modifies this`time
      ensures time == 0 && err == None
    {
      time := 0;
      err := None;
    }

    /** One firing of the job built by `ticker`. */
    method Tick() returns (err: Option<JobError>)
      modifies this`time
      ensures time == Inc(old(time)) && err == None
    {
      if time as int == Modulus - 1 {
        time := 0;
      } else {
        time := time + 1;
      }
      err := None;
    }

    /** `init_html`: the page is rewritten with its placeholders filled in. */
    method InitHtml(srvaddr: string)
      modifies this`docHtml
      ensures docHtml == RenderDoc(old(docHtml), srvaddr)
    {
      docHtml := RenderDoc(docHtml, srvaddr);
    }

    /** `init_webhook`: appends the addresses one by one and returns at the
        first one that does not parse. */
    method InitWebhook(evtaddrs: seq<string>, parse: string -> Option<Url>, lookup: string -> bool)
      returns (log: seq<LogLine>)
      modifies this`webhooks
      ensures webhooks == old(webhooks) + AcceptedWebhooks(evtaddrs, parse)
      ensures log == WebhookLog(evtaddrs, parse, lookup)
    {
      log := [];
      if |evtaddrs| == 0 {
        return;
      }
      var i := 0;
      while i < |evtaddrs|
        invariant 0 <= i <= |evtaddrs|
        invariant webhooks + AcceptedWebhooks(evtaddrs[i..], parse)
                  == old(webhooks) + AcceptedWebhooks(evtaddrs, parse)
        invariant log + WebhookLog(evtaddrs[i..], parse, lookup) == WebhookLog(evtaddrs, parse, lookup)
      {
        var evtaddr := evtaddrs[i];
        AcceptedLoopStep(evtaddrs, i, parse, webhooks, old(webhooks) + AcceptedWebhooks(evtaddrs, parse));
        LogLoopStep(evtaddrs, i, parse, lookup, log, WebhookLog(evtaddrs, parse, lookup));
        var url := parse(evtaddr);
        if url.None? {
          log := log + [InvalidUrl(evtaddr)];
          return;
        }
        if !lookup(url.value.host) {
          log := log + [Unresolved(url.value.host)];
        }
        log := log + [WillUse(evtaddr)];
        webhooks := webhooks + [evtaddr];
        i := i + 1;
      }
    }

    /** `main` after flag parsing: either only a decision is taken, or the
        clock, the page and the webhook list are initialised in that order. */
    method Start(version: bool, help: bool, srvaddr: string, evtaddrs: seq<string>,
                 parse: string -> Option<Url>, lookup: string -> bool)
      returns (mode: Mode, log: seq<LogLine>)
      modifies this
      ensures mode == SelectMode(version, help, srvaddr)
      ensures mode != RunServer ==>
                time == old(time) && docHtml == old(docHtml) && webhooks == old(webhooks) && log == []
      ensures mode == RunServer ==>
                && time == 0
                && docHtml == RenderDoc(old(docHtml), srvaddr)
                && webhooks == old(webhooks) + AcceptedWebhooks(evtaddrs, parse)
                && log == WebhookLog(evtaddrs, parse, lookup)
    {
      log := [];
      if version {
        return PrintVersion, log;
      }
      if help || |srvaddr| == 0 {
        return PrintHelp, log;
      }
      var _ := InitScheduler();
      InitHtml(srvaddr);
      log := InitWebhook(evtaddrs, parse, lookup);
      mode := RunServer;
    }
  }
}
