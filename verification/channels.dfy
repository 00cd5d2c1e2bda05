/** Channel lookup in `internal/channel/channels.go`: the channel list and
    the per-domain lookup come from two HTTP requests, modelled as the
    replies they produced. */
module Channels {
  import opened Wrappers

  /** `FanclubSite`. */
  datatype FanclubSite = FanclubSite(id: int)

  /** `ContentProvider`: a channel, with the id of its fan-club site and its
      own (different) id. */
  datatype ContentProvider = ContentProvider(domain: string, fanclubSite: FanclubSite, id: int)

  /** What a GET request produced: a transport error, or a status code and
      the decoded body. */
  datatype Reply<T> = TransportError(cause: string) | Status(code: int, body: T)

  /** The errors the lookups return. `op` names the function that wraps
      the error, as the `fmt.Errorf` prefixes do. */
  datatype ChannelError =
    | RequestFailed(op: string, cause: string)
    | BadStatus(op: string, code: int)
    | NoSuchSiteId(id: int)
    | NoSuchDomain(domain: string)

  const StatusOK: int := 200

  /** `GetChannels`, reduced to its `content_providers` list. */
  function GetChannels(reply: Reply<seq<ContentProvider>>): (r: Result<seq<ContentProvider>, ChannelError>)
    ensures r.Ok? <==> reply.Status? && reply.code == StatusOK
    ensures r.Ok? ==> r.value == reply.body
    ensures reply.TransportError? ==> r == Err(RequestFailed("channel.GetChannels", reply.cause))
    ensures reply.Status? && reply.code != StatusOK ==> r == Err(BadStatus("channel.GetChannels", reply.code))
  {
    match reply
    case TransportError(e) => Err(RequestFailed("channel.GetChannels", e))
    case Status(code, providers) =>
      if code != StatusOK then Err(BadStatus("channel.GetChannels", code)) else Ok(providers)
  }

  /** The index of the first channel whose fan-club site has id `id`. */
  function FindBySiteId(channels: seq<ContentProvider>, id: int): (r: Option<nat>)
    ensures r.Some? ==> r.value < |channels| && channels[r.value].fanclubSite.id == id
    ensures r.Some? ==> forall j :: 0 <= j < r.value ==> channels[j].fanclubSite.id != id
    ensures r.None? <==> forall j :: 0 <= j < |channels| ==> channels[j].fanclubSite.id != id
  {
    if |channels| == 0 then None
    else if channels[0].fanclubSite.id == id then Some(0)
    else match FindBySiteId(channels[1..], id)
      case None => None
      case Some(i) => Some(i + 1)
  }

  /** `GetChannelByID`: the first channel of the list whose fan-club site id
      is `id`; a failed list request is passed on as it is, and no match is
      an error. */
  function GetChannelByID(reply: Reply<seq<ContentProvider>>, id: int): (r: Result<ContentProvider, ChannelError>)
    ensures GetChannels(reply).Err? ==> r == Err(GetChannels(reply).error)
    ensures r.Ok? ==> GetChannels(reply).Ok? && r.value in GetChannels(reply).value
                      && r.value.fanclubSite.id == id
  {
    match GetChannels(reply)
    case Err(e) => Err(e)
    case Ok(channels) =>
      match FindBySiteId(channels, id)
      case None => Err(NoSuchSiteId(id))
      case Some(i) => Ok(channels[i])
  }

  /** Found exactly when some channel of a listed reply has that fan-club
      site id, and then it is the first such channel in list order. */
  lemma GetChannelByIDFindsFirst(providers: seq<ContentProvider>, id: int)
    ensures var r := GetChannelByID(Status(StatusOK, providers), id);
      && (r.Ok? <==> exists j :: 0 <= j < |providers| && providers[j].fanclubSite.id == id)
      && (r.Err? ==> r.error == NoSuchSiteId(id))
      && (r.Ok? ==> exists j :: 0 <= j < |providers| && providers[j] == r.value
                     && forall k :: 0 <= k < j ==> providers[k].fanclubSite.id != id)
  {
    var r := GetChannelByID(Status(StatusOK, providers), id);
    match FindBySiteId(providers, id)
    case None =>
    case Some(i) =>
      assert providers[i] == r.value;
  }

  /** The lookup goes by the fan-club site's id, not the channel's own id:
      a channel whose own id matches but whose site id does not is not
      found. */
  lemma GetChannelByIDIgnoresOwnId()
    ensures GetChannelByID(Status(StatusOK, [ContentProvider("example.jp", FanclubSite(1), 387)]), 387)
            == Err(NoSuchSiteId(387))
  {
    var p := ContentProvider("example.jp", FanclubSite(1), 387);
    assert FindBySiteId([p], 387) == None;
  }

  /** `GetChannelByDomain`: the reply's `content_providers` entry, which
      may be absent (a nil pointer in the source). */
  function GetChannelByDomain(reply: Reply<Option<ContentProvider>>, domain: string): (r: Result<ContentProvider, ChannelError>)
    ensures r.Ok? <==> reply.Status? && reply.code == StatusOK && reply.body.Some?
    ensures r.Ok? ==> r.value == reply.body.value
    ensures reply.TransportError? ==> r == Err(RequestFailed("channel.GetChannelByDomain", reply.cause))
    ensures reply.Status? && reply.code != StatusOK ==> r == Err(BadStatus("channel.GetChannelByDomain", reply.code))
    ensures reply.Status? && reply.code == StatusOK && reply.body.None? ==> r == Err(NoSuchDomain(domain))
  {
    match reply
    case TransportError(e) => Err(RequestFailed("channel.GetChannelByDomain", e))
    case Status(code, provider) =>
      if code != StatusOK then Err(BadStatus("channel.GetChannelByDomain", code))
      else if provider.None? then Err(NoSuchDomain(domain))
      else Ok(provider.value)
  }
}
