/** The router's route table, and the way back from a backend text to a miniverse id. */
module Routes {
  import opened Text

  /** What the route table needs of a miniverse. */
  datatype Site = Site(id: string, subdomain: string)

  function Backend(id: string): string {
    "miniverse-" + id + ":25565"
  }

  function Host(subdomain: string, domain: string): string {
    subdomain + "." + domain
  }

  /** The dictionary built over the listed miniverses: of two with one host name the later one stays. */
  function GenerateRoutes(sites: seq<Site>, domain: string): map<string, string> {
    if sites == [] then map[]
    else
      var last := sites[|sites| - 1];
      GenerateRoutes(sites[..|sites| - 1], domain)[Host(last.subdomain, domain) := Backend(last.id)]
  }

  lemma HostInjective(a: string, b: string, domain: string)
    requires Host(a, domain) == Host(b, domain)
    ensures a == b
  {
    assert a == Host(a, domain)[..|a|] && b == Host(b, domain)[..|b|];
    assert |Host(a, domain)| == |a| + 1 + |domain|;
  }

  /** A host has a route exactly when some miniverse has it, and the route leads to such a miniverse. */
  lemma {:induction false} RoutesAreTheSites(sites: seq<Site>, domain: string, host: string)
    ensures host in GenerateRoutes(sites, domain) <==>
            exists i :: 0 <= i < |sites| && Host(sites[i].subdomain, domain) == host
    ensures host in GenerateRoutes(sites, domain) ==>
            exists i :: 0 <= i < |sites| && Host(sites[i].subdomain, domain) == host
                        && GenerateRoutes(sites, domain)[host] == Backend(sites[i].id)
  {
    if sites != [] {
      var n := |sites| - 1;
      RoutesAreTheSites(sites[..n], domain, host);
      assert forall i | 0 <= i < n :: sites[..n][i] == sites[i];
      if Host(sites[n].subdomain, domain) != host && host in GenerateRoutes(sites[..n], domain) {
        var i :| 0 <= i < n && Host(sites[..n][i].subdomain, domain) == host
                 && GenerateRoutes(sites[..n], domain)[host] == Backend(sites[..n][i].id);
        assert Host(sites[i].subdomain, domain) == host;
      }
    }
  }

  ghost predicate DistinctSubdomains(sites: seq<Site>) {
    forall i, j | 0 <= i < j < |sites| :: sites[i].subdomain != sites[j].subdomain
  }

  /** With distinct subdomains there is one route for each miniverse, and it leads there. */
  lemma {:induction false} OneRouteEach(sites: seq<Site>, domain: string)
    requires DistinctSubdomains(sites)
    ensures |GenerateRoutes(sites, domain)| == |sites|
    ensures forall i | 0 <= i < |sites| ::
              var host := Host(sites[i].subdomain, domain);
              host in GenerateRoutes(sites, domain) && GenerateRoutes(sites, domain)[host] == Backend(sites[i].id)
  {
    if sites != [] {
      var n := |sites| - 1;
      var front, host := sites[..n], Host(sites[n].subdomain, domain);
      OneRouteEach(front, domain);
      forall i | 0 <= i < n ensures Host(front[i].subdomain, domain) != host {
        if Host(sites[i].subdomain, domain) == host {
          HostInjective(sites[i].subdomain, sites[n].subdomain, domain);
        }
      }
      RoutesAreTheSites(front, domain, host);
      assert forall i | 0 <= i < n :: front[i] == sites[i];
    }
  }

  /* ---- from the backend text back to the id ---- */

  function CharsOf(s: string): set<char> {
    set i | 0 <= i < |s| :: s[i]
  }

  /** `str.lstrip(chars)`: drops characters of the set, not a prefix. */
  function LeftStrip(s: string, chars: set<char>): string {
    if s != "" && s[0] in chars then LeftStrip(s[1..], chars) else s
  }

  function RecoveredId(backend: string): string {
    Split(LeftStrip(backend, CharsOf("miniverse-")), ':')[0]
  }

  lemma {:induction false} StripDropsPrefix(prefix: string, s: string, chars: set<char>)
    requires forall i | 0 <= i < |prefix| :: prefix[i] in chars
    ensures LeftStrip(prefix + s, chars) == LeftStrip(s, chars)
  {
    if prefix == "" {
      assert prefix + s == s;
    } else {
      assert (prefix + s)[1..] == prefix[1..] + s;
      StripDropsPrefix(prefix[1..], s, chars);
    }
  }

  /** Stripping stops at a character outside the set at the latest. */
  lemma {:induction false} StripStops(s: string, rest: string, chars: set<char>)
    requires rest != "" && rest[0] !in chars
    ensures LeftStrip(s + rest, chars) == LeftStrip(s, chars) + rest && |LeftStrip(s, chars)| <= |s|
  {
    if s != "" && s[0] in chars {
      assert (s + rest)[1..] == s[1..] + rest;
      StripStops(s[1..], rest, chars);
    } else if s == "" {
      assert s + rest == rest;
    }
  }

  lemma {:induction false} FirstPiece(s: string, rest: string, sep: char)
    ensures |Split(s + [sep] + rest, sep)[0]| <= |s|
    ensures sep !in s ==> Split(s + [sep] + rest, sep)[0] == s
  {
    if sep !in s {
      SplitPrefix(s, sep, rest);
    } else {
      var t := s + [sep] + rest;
      assert t[1..] == s[1..] + [sep] + rest;
      FirstPiece(s[1..], rest, sep);
    }
  }

  /** What stripping leaves of a backend text: the stripped id, with the port. */
  lemma StrippedBackend(id: string, chars: set<char>)
    requires chars == CharsOf("miniverse-")
    ensures LeftStrip(Backend(id), chars) == LeftStrip(id, chars) + [':'] + "25565"
  {
    var prefix, port := "miniverse-", ":25565";
    assert Backend(id) == prefix + (id + port);
    StripDropsPrefix(prefix, id + port, chars);
    StripStops(id, port, chars);
    assert port == [':'] + "25565";
  }

  /** Exactly for colon-free ids that are empty or do not begin with a letter of "miniverse-" does the webhook
      handler recover the id the route table wrote; an id beginning with "e" is not recovered. */
  lemma IdIsRecoveredExactlyWhen(id: string)
    ensures RecoveredId(Backend(id)) == id <==>
            ':' !in id && (id == "" || id[0] !in CharsOf("miniverse-"))
  {
    var chars := CharsOf("miniverse-");
    var stripped := LeftStrip(id, chars);
    StrippedBackend(id, chars);
    FirstPiece(stripped, "25565", ':');
    SplitPiecesFree(stripped + [':'] + "25565", ':');
    assert RecoveredId(Backend(id)) in Split(stripped + [':'] + "25565", ':');
    if id != "" && id[0] in chars {
      StripShortens(id, chars);
    }
  }

  /** Such an id: webhooks for "e1" are looked up under "1". */
  lemma LetterIsStripped() returns (id: string)
    ensures id == "e1" && RecoveredId(Backend(id)) == "1"
  {
    id := "e1";
    RecoveredIdIsStripped(id);
    var letters := "miniverse-";
    assert letters[5] == 'e';
    assert id[1..] == "1" && LeftStrip(id, CharsOf(letters)) == LeftStrip("1", CharsOf(letters));
    assert '1' !in CharsOf(letters);
  }

  lemma {:induction false} StripShortens(s: string, chars: set<char>)
    requires s != "" && s[0] in chars
    ensures |LeftStrip(s, chars)| < |s|
  {
    if |s| > 1 && s[1] in chars {
      StripShortens(s[1..], chars);
    }
  }

  /** The id a webhook is delivered under is always the id without its leading letters of "miniverse-". */
  lemma RecoveredIdIsStripped(id: string)
    requires ':' !in id
    ensures RecoveredId(Backend(id)) == LeftStrip(id, CharsOf("miniverse-"))
  {
    var chars := CharsOf("miniverse-");
    StrippedBackend(id, chars);
    StripKeepsFree(id, chars, ':');
    FirstPiece(LeftStrip(id, chars), "25565", ':');
  }

  lemma {:induction false} StripKeepsFree(s: string, chars: set<char>, c: char)
    requires c !in s
    ensures c !in LeftStrip(s, chars)
  {
    if s != "" && s[0] in chars {
      StripKeepsFree(s[1..], chars, c);
    }
  }
}
