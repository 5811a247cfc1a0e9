/** protocol.py: telling a Mercurial client apart from a web browser by the
    headers of its request. */
module Protocol {
  import opened Text
  import opened Failures

  /** The parts of a request the test looks at: the WSGI environment and the
      value the request object gives for the User-agent header, if any. */
  datatype Request = Request(environ: map<string, string>, userAgent: Option<string>)

  const AcceptPrefix: string := "application/mercurial-"
  const AgentPrefix: string := "mercurial/proto-"

  /** mercurial(request): a standard client announces itself in HTTP_ACCEPT,
      an older one in its User-agent; without either the answer is no. */
  predicate IsMercurial(request: Request) {
    if "HTTP_ACCEPT" in request.environ then StartsWith(request.environ["HTTP_ACCEPT"], AcceptPrefix)
    else if request.userAgent.Some? && request.userAgent.value != "" then
      StartsWith(request.userAgent.value, AgentPrefix)
    else false
  }

  /** A header carries a marker when it is the marker followed by anything. */
  ghost predicate Marked(header: string, marker: string) {
    exists rest :: header == marker + rest
  }

  lemma StartsWithMarked(header: string, marker: string)
    ensures StartsWith(header, marker) <==> Marked(header, marker)
  {
    if StartsWith(header, marker) {
      assert header == marker + header[|marker|..];
    }
    if Marked(header, marker) {
      var rest :| header == marker + rest;
      assert header[..|marker|] == marker;
    }
  }

  /** When HTTP_ACCEPT is present it alone decides: the request is from a
      Mercurial client exactly when that header carries the marker. */
  lemma AcceptDecides(request: Request)
    requires "HTTP_ACCEPT" in request.environ
    ensures IsMercurial(request) <==> Marked(request.environ["HTTP_ACCEPT"], AcceptPrefix)
  {
    StartsWithMarked(request.environ["HTTP_ACCEPT"], AcceptPrefix);
  }

  /** A browser-like HTTP_ACCEPT wins over a Mercurial User-agent: the agent is
      never consulted once HTTP_ACCEPT is there. */
  lemma AcceptShadowsAgent(environ: map<string, string>, agent: string)
    requires "HTTP_ACCEPT" in environ && !Marked(environ["HTTP_ACCEPT"], AcceptPrefix)
    ensures Marked(AgentPrefix + agent, AgentPrefix)
    ensures !IsMercurial(Request(environ, Some(AgentPrefix + agent)))
  {
    assert AgentPrefix + agent == AgentPrefix + agent;
    AcceptDecides(Request(environ, Some(AgentPrefix + agent)));
  }

  /** Without HTTP_ACCEPT, a User-agent decides by its own marker. */
  lemma AgentDecides(request: Request)
    requires "HTTP_ACCEPT" !in request.environ && request.userAgent.Some?
    ensures IsMercurial(request) <==> Marked(request.userAgent.value, AgentPrefix)
  {
    StartsWithMarked(request.userAgent.value, AgentPrefix);
  }

  /** With neither header, or an empty User-agent, the request is not from
      Mercurial. */
  lemma NoHeadersNotMercurial(environ: map<string, string>, agent: Option<string>)
    requires "HTTP_ACCEPT" !in environ && (agent.None? || agent.value == "")
    ensures !IsMercurial(Request(environ, agent))
  {
  }

  /** The whole decision in one statement: a request is from a Mercurial client
      exactly when the header that decides carries its marker. */
  lemma Decision(request: Request)
    ensures IsMercurial(request) <==>
      if "HTTP_ACCEPT" in request.environ then Marked(request.environ["HTTP_ACCEPT"], AcceptPrefix)
      else request.userAgent.Some? && Marked(request.userAgent.value, AgentPrefix)
  {
    if "HTTP_ACCEPT" in request.environ {
      AcceptDecides(request);
    } else if request.userAgent.Some? {
      AgentDecides(request);
    }
  }
}
