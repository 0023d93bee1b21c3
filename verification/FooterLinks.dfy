/**
 The ordered footer link list: its normalizer and its compare-and-set update under row locks.
 `normalize` is the URL normalizer; the lemmas take the one of module FooterUrl.
 */
module FooterLinks {
  import opened Common
  import Url = FooterUrl
  import Revisions

  datatype Link = Link(caption: string, url: string)

  type Normalizer = string -> Option<string>

  function NormalizerOf(net: Url.Net): Normalizer { raw => Url.Normalized(net, raw) }

  function NormalLink(normalize: Normalizer, l: Link): Option<Link> {
    var text, target := Url.Trim(l.caption), normalize(l.url);
    if Url.TextValid(l.caption) && 1 <= |text| <= 40 && target.Some? then Some(Link(text, target.value)) else None
  }

  /** `links` is the normal form of `raw`: at most five, link by link, in order. */
  predicate Normal(normalize: Normalizer, raw: Option<seq<Link>>, links: seq<Link>) {
    && raw.Some? && |raw.value| == |links| <= 5
    && forall i :: 0 <= i < |links| ==> NormalLink(normalize, raw.value[i]) == Some(links[i])
  }

  predicate HasNormal(normalize: Normalizer, raw: Option<seq<Link>>) {
    raw.Some? && |raw.value| <= 5 && forall i :: 0 <= i < |raw.value| ==> NormalLink(normalize, raw.value[i]).Some?
  }

  /** A normal form has the given list's captions without the white space around them, and its normalized targets. */
  lemma NormalMeans(normalize: Normalizer, raw: Option<seq<Link>>, links: seq<Link>)
    ensures Normal(normalize, raw, links) <==>
            && raw.Some? && |links| == |raw.value| && |raw.value| <= 5
            && forall i :: 0 <= i < |links| ==>
                 && Url.TextValid(raw.value[i].caption) && links[i].caption == Url.Trim(raw.value[i].caption)
                 && 1 <= |links[i].caption| <= 40
                 && normalize(raw.value[i].url) == Some(links[i].url)
    ensures (exists l :: Normal(normalize, raw, l)) <==> HasNormal(normalize, raw)
  {
    if HasNormal(normalize, raw) {
      var l := seq(|raw.value|, i requires 0 <= i < |raw.value| => NormalLink(normalize, raw.value[i]).value);
      assert Normal(normalize, raw, l);
    }
  }

  /** A list that was never given has no normal form; an empty one does. */
  method NormalizeFooterLinks(normalize: Normalizer, links: Option<seq<Link>>) returns (r: Option<seq<Link>>)
    ensures r.Some? ==> Normal(normalize, links, r.value)
    ensures r.Some? <==> HasNormal(normalize, links)
  {
    if links.None? || |links.value| > 5 { return None; }
    var n := |links.value|;
    var result := new Link[n](_ => Link("", ""));
    for i := 0 to n
      invariant forall j :: 0 <= j < i ==> NormalLink(normalize, links.value[j]) == Some(result[j])
    {
      var link := links.value[i];
      if !Url.TextValid(link.caption) { return None; }
      var text := Url.Trim(link.caption);
      if |text| < 1 || |text| > 40 { return None; }
      var target := normalize(link.url);
      if target.None? { return None; }
      result[i] := Link(text, target.value);
    }
    return Some(result[..]);
  }

  /** What the stored row must be: its own normal form. */
  predicate Stored(normalize: Normalizer, links: seq<Link>) { Normal(normalize, Some(links), links) }

  predicate Short(links: seq<Link>) { forall i :: 0 <= i < |links| ==> |links[i].url| <= 2048 }

  lemma LinkTwice(net: Url.Net, raw: Link)
    requires Url.LawfulAddresses(net) && Url.LawfulHosts(net)
    ensures NormalLink(NormalizerOf(net), raw).Some? ==>
              var l := NormalLink(NormalizerOf(net), raw).value;
              NormalLink(NormalizerOf(net), l) == Some(l) <==> |l.url| <= 2048
  {
    Url.TrimDone(raw.caption);
    Url.TrimKeeps(Url.Trim(raw.caption));
    Url.NormalizeTwice(net, raw.url);
  }

  /** A normalized list is accepted as a stored one exactly when no target outgrew the limit. */
  lemma NormalIsStored(net: Url.Net, raw: Option<seq<Link>>, links: seq<Link>)
    requires Url.LawfulAddresses(net) && Url.LawfulHosts(net) && Normal(NormalizerOf(net), raw, links)
    ensures Stored(NormalizerOf(net), links) <==> Short(links)
  {
    var normalize := NormalizerOf(net);
    forall i | 0 <= i < |links| ensures NormalLink(normalize, links[i]) == Some(links[i]) <==> |links[i].url| <= 2048 {
      LinkTwice(net, raw.value[i]);
    }
  }

  datatype Grants = Grants(adminAccess: bool, systemManage: bool)

  datatype Reply = Denied | Missing | Corrupt | Conflict | Unchanged | Changed(revision: int)

  function AsReply(a: Revisions.Reply): Reply {
    match a
    case Conflict => Conflict
    case Rejected => Corrupt
    case Unchanged => Unchanged
    case Changed(revision) => Changed(revision)
  }

  /** One settings row; `row` is None when the key was never seeded. */
  class FooterLinksTable {
    var row: Option<Revisions.Resource<seq<Link>>>

    ghost predicate Valid(normalize: Normalizer)
      reads this
    {
      row.Some? ==> Stored(normalize, row.value.content)
    }

    /**
     Actor, group and row are locked and checked in that order. The revision is compared before
     the no-op test. The row just written is checked like any stored row; when it is refused the
     transaction rolls back, so the table never holds a list that cannot be read again.
     */
    method ApplyFooterLinks(normalize: Normalizer, actorGroup: Option<Grants>, content: seq<Link>, expected: int,
                            clock: int)
      returns (reply: Reply)
      modifies this
      ensures old(Valid(normalize)) ==> Valid(normalize)
      ensures reply == Denied <==> actorGroup.None? || !actorGroup.value.adminAccess || !actorGroup.value.systemManage
      ensures reply == Missing <==> reply != Denied && old(row).None?
      ensures !reply.Changed? ==> row == old(row)
      ensures reply != Denied && old(row).Some? && Stored(normalize, old(row).value.content) ==>
                var command := Revisions.Command(expected, content, clock, true, Stored(normalize, content));
                && row == Some(Revisions.Applied(old(row).value, command))
                && reply == AsReply(Revisions.Answer(old(row).value, command))
      ensures reply != Denied && old(row).Some? && !Stored(normalize, old(row).value.content) ==> reply == Corrupt
    {
      if actorGroup.None? || !actorGroup.value.adminAccess || !actorGroup.value.systemManage { return Denied; }
      if row.None? { return Missing; }
      var current := row.value;
      if !Stored(normalize, current.content) { return Corrupt; }
      if current.revision != expected { return Conflict; }
      if current.content == content { return Unchanged; }
      var next := clock;
      if next <= current.revision { next := current.revision + 1; }
      row := Some(Revisions.Resource(content, next));
      if !Stored(normalize, content) {
        row := Some(current);
        return Corrupt;
      }
      return Changed(next);
    }
  }
}
