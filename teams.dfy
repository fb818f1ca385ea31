/**
 * Where the deployment notifications go and what the posted JSON looks like
 * (`send_teams_message` and the routing in `send_pipeline_status_update` and
 * `send_deployment_completed_message`).
 */
module Teams {

  /** The `status_type` values the monitor passes to `send_pipeline_status_update`. */
  datatype StatusType = Triggered | InProgress | Succeeded | Failed

  function StatusTypeName(t: StatusType): string
  {
    match t
    case Triggered => "triggered"
    case InProgress => "in_progress"
    case Succeeded => "succeeded"
    case Failed => "failed"
  }

  /**
   * A webhook destination. The two module constants are named rather than spelled out;
   * `OtherWebhook` is any URL that differs from the Power Automate one.
   */
  datatype Webhook = PowerAutomateWebhook | TeamsWebhook | OtherWebhook(url: string)

  /** The status types that go to the Power Automate flow; every other string goes to Teams. */
  predicate IsFinalStatusType(statusType: string)
  {
    statusType == "triggered" || statusType == "succeeded" || statusType == "failed"
  }

  /** The webhook chosen for a status type. */
  function RouteFor(statusType: string): (w: Webhook)
    ensures w == PowerAutomateWebhook <==> IsFinalStatusType(statusType)
    ensures w == TeamsWebhook <==> !IsFinalStatusType(statusType)
  {
    if statusType in ["triggered", "succeeded", "failed"] then PowerAutomateWebhook else TeamsWebhook
  }

  /** Only the in-progress update reaches the plain Teams channel. */
  lemma RouteOfStatusType(t: StatusType)
    ensures RouteFor(StatusTypeName(t)) == if t == InProgress then TeamsWebhook else PowerAutomateWebhook
  {
  }

  /** One element of an Adaptive Card's body. */
  datatype TextBlock = TextBlock(text: string, wrap: bool)

  datatype AdaptiveCard = AdaptiveCard(cardType: string, schema: string, version: string, body: seq<TextBlock>)

  datatype Attachment = Attachment(contentType: string, content: AdaptiveCard)

  /** The JSON body of the webhook POST. */
  datatype Payload =
    | TextPayload(text: string)
    | AttachmentsPayload(attachments: seq<Attachment>)

  /** The message a payload carries, when it has the shape `send_teams_message` builds. */
  function MessageOf(p: Payload): string
  {
    match p
    case TextPayload(text) => text
    case AttachmentsPayload(atts) =>
      if |atts| == 1 && |atts[0].content.body| == 1 then atts[0].content.body[0].text else ""
  }

  /** The payload `send_teams_message` posts: an Adaptive Card envelope for Power Automate, plain text otherwise. */
  function MessagePayload(hook: Webhook, message: string): (p: Payload)
    ensures p.AttachmentsPayload? <==> hook == PowerAutomateWebhook
    ensures p.AttachmentsPayload? ==>
      && |p.attachments| == 1
      && p.attachments[0].contentType == "application/vnd.microsoft.card.adaptive"
      && p.attachments[0].content.cardType == "AdaptiveCard"
      && |p.attachments[0].content.body| == 1
      && p.attachments[0].content.body[0].wrap
  {
    if hook == PowerAutomateWebhook then
      var card := AdaptiveCard("AdaptiveCard", "http://adaptivecards.io/schemas/adaptive-card.json", "1.2",
                               [TextBlock(message, true)]);
      AttachmentsPayload([Attachment("application/vnd.microsoft.card.adaptive", card)])
    else
      TextPayload(message)
  }

  /** Whatever the destination, the posted payload carries the message unchanged. */
  lemma MessagePayloadCarriesMessage(hook: Webhook, message: string)
    ensures MessageOf(MessagePayload(hook, message)) == message
  {
  }

  /** Whether `send_teams_message` reports success for an HTTP status code. */
  function Delivered(statusCode: int): (ok: bool)
    ensures ok <==> statusCode == 200 || statusCode == 202
  {
    statusCode in [200, 202]
  }
}
