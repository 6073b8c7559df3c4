/**
 The values the calendar processes exchange: events, notifications, instants.

 An instant is a number of nanoseconds counted from 0001-01-01T00:00:00Z, so that
 Go's zero time is 0 and every other instant, earlier or later, is non-zero.
 */
module Domain {

  datatype Option<+T> = None | Some(value: T)

  type Time = int
  type Duration = int

  const ZERO_TIME: Time := 0

  /** unicode.IsSpace, the class of runes strings.TrimSpace cuts. */
  predicate IsSpace(c: char) {
    || c in {'\t', '\n', '\U{0B}', '\U{0C}', '\r', ' ', '\U{85}', '\U{A0}', '\U{1680}'}
    || '\U{2000}' <= c <= '\U{200A}'
    || c in {'\U{2028}', '\U{2029}', '\U{202F}', '\U{205F}', '\U{3000}'}
  }

  /** The code points of Unicode's white space. */
  lemma SpaceCodes(c: char)
    ensures IsSpace(c) <==>
      || 9 <= c as int <= 13 || c as int == 32 || c as int == 133 || c as int == 160 || c as int == 5760
      || 8192 <= c as int <= 8202 || c as int == 8232 || c as int == 8233
      || c as int == 8239 || c as int == 8287 || c as int == 12288
  {
  }

  /** strings.TrimSpace(s) == "" */
  predicate Blank(s: string) {
    forall i | 0 <= i < |s| :: IsSpace(s[i])
  }

  function TrimLeft(s: string): string {
    if s != [] && IsSpace(s[0]) then TrimLeft(s[1..]) else s
  }

  function TrimRight(s: string): string {
    if s != [] && IsSpace(s[|s| - 1]) then TrimRight(s[..|s| - 1]) else s
  }

  /** strings.TrimSpace leaves nothing exactly of a blank string. */
  lemma {:induction false} BlankIsTrimmed(s: string)
    ensures TrimRight(TrimLeft(s)) == "" <==> Blank(s)
  {
    if s != [] && IsSpace(s[0]) {
      BlankIsTrimmed(s[1..]);
      assert Blank(s) <==> Blank(s[1..]) by { assert forall i | 1 <= i < |s| :: s[i] == s[1..][i - 1]; }
    } else if s != [] {
      TrimRightKeeps(s);
    }
  }

  lemma {:induction false} TrimRightKeeps(s: string)
    requires s != [] && !IsSpace(s[0])
    ensures TrimRight(s) != ""
  {
    if IsSpace(s[|s| - 1]) { TrimRightKeeps(s[..|s| - 1]); }
  }

  datatype Event = Event(
    id: string, title: string, startAt: Time, endAt: Time,
    description: string, userId: string, notifyBefore: Duration)

  /** storage.ValidateEvent accepts the event. */
  predicate ValidEvent(e: Event) {
    && !Blank(e.id) && !Blank(e.title) && !Blank(e.userId)
    && e.startAt != ZERO_TIME && e.endAt != ZERO_TIME
    && e.startAt < e.endAt
    && e.notifyBefore >= 0
  }

  /** intervalsOverlap, on half-open intervals. */
  predicate IntervalsOverlap(firstStart: Time, firstEnd: Time, secondStart: Time, secondEnd: Time) {
    firstStart < secondEnd && secondStart < firstEnd
  }

  datatype Notification = Notification(eventId: string, title: string, eventAt: Time, userId: string)

  /** notification.Validate accepts the notification. */
  predicate ValidNotification(n: Notification) {
    !Blank(n.eventId) && !Blank(n.title) && n.eventAt != ZERO_TIME && !Blank(n.userId)
  }

  /** The message the scheduler builds from an event; a stored event never yields an invalid one. */
  function NotificationOf(e: Event): (n: Notification)
    ensures ValidEvent(e) ==> ValidNotification(n)
    ensures n.eventId == e.id && n.title == e.title && n.eventAt == e.startAt && n.userId == e.userId
  {
    Notification(e.id, e.title, e.startAt, e.userId)
  }

  /** The notifications accepted are exactly those that describe an event that is. */
  lemma ValidNotificationIff(n: Notification)
    ensures ValidNotification(n) <==> exists e :: ValidEvent(e) && Describes(n, e)
  {
    if ValidNotification(n) {
      var end := if n.eventAt == -1 then 1 else n.eventAt + 1;
      var e := Event(n.eventId, n.title, n.eventAt, end, "", n.userId, 0);
      assert ValidEvent(e) && Describes(n, e);
    }
  }

  /** The notification carries the event's id, title, start and user. */
  predicate Describes(n: Notification, e: Event) {
    n.eventId == e.id && n.title == e.title && n.eventAt == e.startAt && n.userId == e.userId
  }

  /** A broker payload: the serialization of a notification, or bytes that are none. */
  datatype Payload = Encoded(value: Notification) | Garbage(bytes: seq<bv8>)

  /** storer.decodeNotification: unreadable and invalid payloads are refused alike. */
  function Decode(p: Payload): Option<Notification> {
    if p.Encoded? && ValidNotification(p.value) then Some(p.value) else None
  }

  datatype Error = AlreadyExists | NotFound | DateBusy | Invalid | Cancelled | NotConnected | Unavailable

  datatype Outcome = Done | Failed(error: Error)

  /** The first elements of a sequence, at most `limit` of them. */
  function Take<A>(s: seq<A>, limit: int): seq<A> {
    if limit < 0 then [] else if |s| <= limit then s else s[..limit]
  }

  lemma {:induction false} SubsetSize<A>(a: set<A>, b: set<A>)
    requires a <= b
    ensures |a| <= |b|
  {
    if a != {} {
      var x :| x in a;
      SubsetSize(a - {x}, b - {x});
    }
  }
}
