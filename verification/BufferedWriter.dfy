/**
 The buffering response writer of pkg/server/middleware/timeout.go, and the writer it
 stands in for.  gin's own writer is not part of the repository; the Wire below follows
 the rules the buffering writer copies from it: the first write fixes the status and sends
 the headers as they are then.
 */
module BufferedWriters {
  import opened Prelude

  type Headers = map<string, seq<string>>

  /** What a handler may do to a response writer. */
  datatype Action =
    | SetHeader(key: string, values: seq<string>)
    | AddHeader(key: string, value: string)
    | DelHeader(key: string)
    | WriteHeader(code: int)
    | Write(data: string)
    | WriteString(data: string)
    | Flush

  const STATUS_OK := 200

  datatype Buffer = Buffer(header: Headers, body: string, status: int, size: int, timedOut: bool)

  const NEW_BUFFER := Buffer(map[], "", STATUS_OK, -1, false)

  /** `sent` is the status and the headers that have gone out. */
  datatype Wire = Wire(header: Headers, body: string, status: int, size: int,
                       sent: Option<(int, Headers)>)

  /** A writer nobody has written to.  Middleware that ran earlier may have set headers and
      the status. */
  function Unsent(header: Headers, status: int): Wire {
    Wire(header, "", status, -1, None)
  }

  /** The actions that make a writer send its status and headers. */
  predicate Sends(a: Action) {
    a.Write? || a.WriteString? || a.Flush?
  }

  predicate ForHeaders(a: Action) {
    a.SetHeader? || a.AddHeader? || a.DelHeader?
  }

  function EditHeaders(h: Headers, a: Action): Headers {
    match a
    case SetHeader(k, vs) => h[k := vs]
    case AddHeader(k, v) => h[k := (if k in h then h[k] else []) + [v]]
    case DelHeader(k) => h - {k}
    case _ => h
  }

  // ------------------------------------------------- the buffer

  function Started(b: Buffer): Buffer {
    if b.size == -1 then b.(size := 0) else b
  }

  function Appended(b: Buffer, data: string): Buffer {
    var s := Started(b);
    s.(body := s.body + data, size := s.size + |data|)
  }

  function BufferStep(b: Buffer, a: Action): Buffer {
    match a
    case WriteHeader(code) => if code > 0 && b.status != code && b.size == -1 then b.(status := code) else b
    case Write(data) => if b.timedOut then b else Appended(b, data)
    case WriteString(data) => if b.timedOut then b else Appended(b, data)
    case Flush => Started(b)
    case _ => b.(header := EditHeaders(b.header, a))
  }

  // ------------------------------------------------- the original writer

  /** The status line and the headers go out, once. */
  function Sent(w: Wire): Wire {
    if w.size == -1 then w.(size := 0, sent := Some((w.status, w.header))) else w
  }

  function WireStep(w: Wire, a: Action): Wire {
    match a
    case WriteHeader(code) => if code > 0 && w.status != code && w.size == -1 then w.(status := code) else w
    case Write(data) => var s := Sent(w); s.(body := s.body + data, size := s.size + |data|)
    case WriteString(data) => var s := Sent(w); s.(body := s.body + data, size := s.size + |data|)
    case Flush => Sent(w)
    case _ => w.(header := EditHeaders(w.header, a))
  }

  /** What the client gets when the request is over: the server sends what was not sent. */
  datatype Response = Response(status: int, header: Headers, body: string)

  function Delivered(w: Wire): Response {
    match Sent(w).sent
    case Some((status, header)) => Response(status, header, w.body)
    case None => Response(w.status, w.header, w.body)
  }

  // ------------------------------------------------- committing the buffer

  function CopiedHeaders(w: Wire, header: Headers): Wire {
    w.(header := w.header + header)
  }

  /** Whether the buffer has a status to hand on. */
  predicate Speaks(b: Buffer) {
    b.size != -1 || b.status != STATUS_OK || |b.header| > 0
  }

  function CopiedStatus(w: Wire, b: Buffer): Wire {
    if Speaks(b) then WireStep(w, WriteHeader(b.status)) else w
  }

  function CopiedBody(w: Wire, b: Buffer): Wire {
    if |b.body| == 0 then w else WireStep(w, Write(b.body))
  }

  function Committed(w: Wire, b: Buffer): Wire {
    CopiedBody(CopiedStatus(CopiedHeaders(w, b.header), b), b)
  }

  lemma OneHeaderMore(w: Wire, header: Headers, todo: set<string>, key: string)
    requires key in todo && key in header
    ensures WireStep(CopiedHeaders(w, map k | k in header && k !in todo :: header[k]), SetHeader(key, header[key]))
         == CopiedHeaders(w, map k | k in header && k !in todo - {key} :: header[k])
  {
    var before := map k | k in header && k !in todo :: header[k];
    var after := map k | k in header && k !in todo - {key} :: header[k];
    assert after == before[key := header[key]];
  }

  // ------------------------------------------------- the writers as objects

  class OriginalWriter {
    var header: Headers
    var body: string
    var status: int
    var size: int
    var sent: Option<(int, Headers)>

    ghost function Abs(): Wire
      reads this
    {
      Wire(header, body, status, size, sent)
    }

    constructor (header: Headers, status: int)
      ensures Abs() == Unsent(header, status)
    {
      this.header, this.status := header, status;
      body, size, sent := "", -1, None;
    }

    method SetHeader(key: string, values: seq<string>)
      modifies this
      ensures Abs() == WireStep(old(Abs()), Action.SetHeader(key, values))
    {
      header := header[key := values];
    }

    method WriteHeader(code: int)
      modifies this
      ensures Abs() == WireStep(old(Abs()), Action.WriteHeader(code))
    {
      if code > 0 && status != code {
        if size != -1 {
          return;
        }
        status := code;
      }
    }

    method Write(data: string)
      modifies this
      ensures Abs() == WireStep(old(Abs()), Action.Write(data))
    {
      if size == -1 {
        size := 0;
        sent := Some((status, header));
      }
      body := body + data;
      size := size + |data|;
    }
  }

  class BufferedResponseWriter {
    const original: OriginalWriter
    var header: Headers
    var body: string
    var status: int
    var size: int
    var timedOut: bool

    ghost function Abs(): Buffer
      reads this
    {
      Buffer(header, body, status, size, timedOut)
    }

    constructor (original: OriginalWriter)
      ensures Abs() == NEW_BUFFER && this.original == original
      ensures header == map[] && body == "" && status == 200 && size == -1 && !timedOut
    {
      this.original := original;
      header, body, status, size, timedOut := map[], "", STATUS_OK, -1, false;
    }

    method WriteHeader(code: int)
      modifies this
      ensures Abs() == BufferStep(old(Abs()), Action.WriteHeader(code))
    {
      if code > 0 && status != code {
        if size != -1 {
          return;
        }
        status := code;
      }
    }

    method WriteHeaderNow()
      modifies this
      ensures Abs() == Started(old(Abs()))
    {
      if size == -1 {
        size := 0;
      }
    }

    method Write(data: string) returns (n: int, ok: bool)
      modifies this
      ensures Abs() == BufferStep(old(Abs()), Action.Write(data))
      ensures if old(timedOut) then (n, ok) == (0, false) else (n, ok) == (|data|, true)
    {
      if timedOut {
        return 0, false;
      }
      if size == -1 {
        size := 0;
      }
      body := body + data;
      size := size + |data|;
      return |data|, true;
    }

    method WriteString(data: string) returns (n: int, ok: bool)
      modifies this
      ensures Abs() == BufferStep(old(Abs()), Action.WriteString(data))
      ensures if old(timedOut) then (n, ok) == (0, false) else (n, ok) == (|data|, true)
    {
      if timedOut {
        return 0, false;
      }
      if size == -1 {
        size := 0;
      }
      body := body + data;
      size := size + |data|;
      return |data|, true;
    }

    method Flush()
      modifies this
      ensures Abs() == BufferStep(old(Abs()), Action.Flush)
    {
      WriteHeaderNow();
    }

    method MarkTimedOut()
      modifies this
      ensures Abs() == old(Abs()).(timedOut := true)
    {
      timedOut := true;
    }

    method CommitToOriginal() returns (ok: bool)
      modifies original
      ensures ok == !timedOut
      ensures original.Abs() == if timedOut then old(original.Abs()) else Committed(old(original.Abs()), Abs())
    {
      if timedOut {
        return false;
      }
      hide WireStep, BufferStep;
      ghost var w := original.Abs();
      var todo := header.Keys;
      while todo != {}
        invariant todo <= header.Keys
        invariant original.Abs() == CopiedHeaders(w, map key | key in header && key !in todo :: header[key])
        decreases todo
      {
        var key :| key in todo;
        OneHeaderMore(w, header, todo, key);
        original.SetHeader(key, header[key]);
        todo := todo - {key};
      }
      assert header == map key | key in header && key !in todo :: header[key];
      hide CopiedHeaders;
      if size != -1 || status != STATUS_OK || |header| > 0 {
        original.WriteHeader(status);
      }
      if |body| == 0 {
        return true;
      }
      original.Write(body);
      return true;
    }
  }

  // ------------------------------------------------- runs of actions

  function BufferRun(b: Buffer, actions: seq<Action>): Buffer
    decreases |actions|
  {
    if actions == [] then b else BufferRun(BufferStep(b, actions[0]), actions[1..])
  }

  function WireRun(w: Wire, actions: seq<Action>): Wire
    decreases |actions|
  {
    if actions == [] then w else WireRun(WireStep(w, actions[0]), actions[1..])
  }

  lemma {:induction false} BufferRunSplit(b: Buffer, xs: seq<Action>, ys: seq<Action>)
    ensures BufferRun(b, xs + ys) == BufferRun(BufferRun(b, xs), ys)
    decreases |xs|
  {
    if xs == [] {
      assert xs + ys == ys;
    } else {
      assert (xs + ys)[1..] == xs[1..] + ys;
      BufferRunSplit(BufferStep(b, xs[0]), xs[1..], ys);
    }
  }

  lemma {:induction false} WireRunSplit(w: Wire, xs: seq<Action>, ys: seq<Action>)
    ensures WireRun(w, xs + ys) == WireRun(WireRun(w, xs), ys)
    decreases |xs|
  {
    if xs == [] {
      assert xs + ys == ys;
    } else {
      assert (xs + ys)[1..] == xs[1..] + ys;
      WireRunSplit(WireStep(w, xs[0]), xs[1..], ys);
    }
  }

  /** size is -1 until the first write and the length of the body from then on. */
  ghost predicate SizeTellsBody(b: Buffer) {
    if b.size == -1 then b.body == "" else b.size == |b.body|
  }

  /** Nothing has gone out before the first write. */
  ghost predicate WireSane(w: Wire) {
    (w.size == -1 <==> w.sent.None?) && (w.size == -1 ==> w.body == "") && -1 <= w.size
  }

  /** The status is frozen by the first write, in the buffer as on the wire. */
  lemma {:induction false} StatusFreezes(b: Buffer, actions: seq<Action>)
    requires SizeTellsBody(b)
    ensures SizeTellsBody(BufferRun(b, actions))
    ensures b.size != -1 ==>
              BufferRun(b, actions).status == b.status && b.body <= BufferRun(b, actions).body
    decreases |actions|
  {
    if actions != [] { StatusFreezes(BufferStep(b, actions[0]), actions[1..]); }
  }

  /** Once timed out a buffer takes no more text: a write leaves it exactly as it is, and no
      sequence of actions changes its body or takes the mark away. */
  lemma {:induction false} NoTextAfterTimeout(b: Buffer, actions: seq<Action>)
    requires b.timedOut
    ensures forall data :: BufferStep(b, Write(data)) == b && BufferStep(b, WriteString(data)) == b
    ensures BufferRun(b, actions).timedOut && BufferRun(b, actions).body == b.body
    decreases |actions|
  {
    if actions != [] { NoTextAfterTimeout(BufferStep(b, actions[0]), actions[1..]); }
  }

  // ------------------------------------------------- what the two ways of writing deliver

  /** The status after one action, while nothing has been sent. */
  function Stated(status: int, a: Action): int {
    if a.WriteHeader? && a.code > 0 then a.code else status
  }

  function StatusWhenSent(status: int, actions: seq<Action>): int
    decreases |actions|
  {
    if actions == [] || Sends(actions[0]) then status
    else StatusWhenSent(Stated(status, actions[0]), actions[1..])
  }

  function Piece(a: Action): string {
    if a.Write? || a.WriteString? then a.data else ""
  }

  function Text(actions: seq<Action>): string
    decreases |actions|
  {
    if actions == [] then "" else Piece(actions[0]) + Text(actions[1..])
  }

  predicate AnySends(actions: seq<Action>) {
    exists a :: a in actions && Sends(a)
  }

  /** The actions before the first one that sends. */
  function Early(actions: seq<Action>): (early: seq<Action>)
    ensures early <= actions
    decreases |actions|
  {
    if actions == [] || Sends(actions[0]) then [] else [actions[0]] + Early(actions[1..])
  }

  function EditedBy(h: Headers, actions: seq<Action>): Headers
    decreases |actions|
  {
    if actions == [] then h else EditedBy(EditHeaders(h, actions[0]), actions[1..])
  }

  lemma BufferStepHolds(b: Buffer, a: Action)
    requires !b.timedOut && SizeTellsBody(b)
    ensures var r := BufferStep(b, a);
            !r.timedOut && SizeTellsBody(r) && r.body == b.body + Piece(a) &&
            r.header == EditHeaders(b.header, a) && (r.size == -1 <==> b.size == -1 && !Sends(a)) &&
            r.status == if b.size == -1 && !Sends(a) then Stated(b.status, a) else b.status
  {
  }

  lemma {:induction false} BufferHolds(b: Buffer, actions: seq<Action>)
    requires !b.timedOut && SizeTellsBody(b)
    ensures var r := BufferRun(b, actions);
            !r.timedOut && SizeTellsBody(r) && r.body == b.body + Text(actions) &&
            r.header == EditedBy(b.header, actions) &&
            r.status == (if b.size == -1 then StatusWhenSent(b.status, actions) else b.status) &&
            (r.size == -1 <==> b.size == -1 && !AnySends(actions))
    decreases |actions|
  {
    hide BufferStep, SizeTellsBody, Sends, Stated, EditHeaders, Piece;
    if actions == [] {
      assert b.body + "" == b.body;
    } else {
      var a, rest := actions[0], actions[1..];
      BufferStepHolds(b, a);
      BufferHolds(BufferStep(b, a), rest);
      AnySendsCons(actions);
      assert b.body + Piece(a) + Text(rest) == b.body + (Piece(a) + Text(rest));
      hide AnySends;
    }
  }

  lemma AnySendsCons(actions: seq<Action>)
    requires actions != []
    ensures AnySends(actions) <==> Sends(actions[0]) || AnySends(actions[1..])
  {
    assert forall a :: a in actions <==> a == actions[0] || a in actions[1..];
  }

  lemma WireStepHolds(w: Wire, a: Action)
    requires WireSane(w)
    ensures var r := WireStep(w, a);
            WireSane(r) && r.body == w.body + Piece(a) && r.header == EditHeaders(w.header, a) &&
            (r.sent.None? <==> w.sent.None? && !Sends(a)) &&
            (w.sent.Some? ==> r.sent == w.sent) &&
            (w.sent.None? && Sends(a) ==> r.sent == Some((w.status, w.header))) &&
            (r.sent.None? ==> r.status == Stated(w.status, a))
  {
  }

  lemma {:induction false} WireSends(w: Wire, actions: seq<Action>)
    requires WireSane(w)
    ensures WireSane(WireRun(w, actions))
    ensures var d := Delivered(WireRun(w, actions));
            d.body == w.body + Text(actions) &&
            (w.sent.Some? ==> (d.status, d.header) == w.sent.value) &&
            (w.sent.None? ==> d.status == StatusWhenSent(w.status, actions) &&
                              d.header == EditedBy(w.header, Early(actions)))
    decreases |actions|
  {
    hide WireStep, WireSane, Sends, Stated, EditHeaders, Piece, Delivered;
    if actions == [] {
      assert w.body + "" == w.body;
      DeliveredNow(w);
    } else {
      var a, rest := actions[0], actions[1..];
      WireStepHolds(w, a);
      WireSends(WireStep(w, a), rest);
      assert w.body + Piece(a) + Text(rest) == w.body + (Piece(a) + Text(rest));
      if !Sends(a) { assert Early(actions)[1..] == Early(rest); }
    }
  }

  lemma DeliveredNow(w: Wire)
    requires WireSane(w)
    ensures Delivered(w).body == w.body
    ensures (Delivered(w).status, Delivered(w).header)
         == if w.sent.Some? then w.sent.value else (w.status, w.header)
  {
  }

  /** Committing a buffer delivers its status if it has one to hand on, its headers over
      those the writer had, and its body -- after what has gone out already, if any has. */
  lemma CommitDelivers(w: Wire, b: Buffer)
    requires WireSane(w) && SizeTellsBody(b) && b.status > 0
    ensures Delivered(Committed(w, b)) ==
            match w.sent
            case Some((status, header)) => Response(status, header, w.body + b.body)
            case None => Response(if Speaks(b) then b.status else w.status, w.header + b.header, b.body)
  {
    assert w.body + "" == w.body;
  }

  lemma {:induction false} StatusStaysPositive(status: int, actions: seq<Action>)
    requires status > 0
    ensures StatusWhenSent(status, actions) > 0
    decreases |actions|
  {
    if actions != [] && !Sends(actions[0]) {
      StatusStaysPositive(Stated(status, actions[0]), actions[1..]);
    }
  }

  // ------------------------------------------------- when the status agrees

  /** The handler states a status before it writes. */
  predicate Announces(actions: seq<Action>) {
    exists a :: a in Early(actions) && a.WriteHeader? && a.code > 0
  }

  /** Whether a handler leaves the buffer with a status to hand on: it writes or flushes,
      states a status other than 200, or leaves a header. */
  predicate HandsOn(actions: seq<Action>) {
    AnySends(actions) || StatusWhenSent(STATUS_OK, actions) != STATUS_OK || EditedBy(map[], actions) != map[]
  }

  predicate StatusAgrees(status: int, actions: seq<Action>) {
    status == STATUS_OK || (Announces(actions) <==> HandsOn(actions))
  }

  lemma {:induction false} StatusFrom(s: int, t: int, actions: seq<Action>)
    ensures if Announces(actions) then StatusWhenSent(s, actions) == StatusWhenSent(t, actions)
            else StatusWhenSent(s, actions) == s
    decreases |actions|
  {
    if actions != [] && !Sends(actions[0]) {
      var a, rest := actions[0], actions[1..];
      assert Early(actions) == [a] + Early(rest);
      if a.WriteHeader? && a.code > 0 {
        assert a in Early(actions);
        StatusFrom(a.code, a.code, rest);
      } else {
        StatusFrom(s, t, rest);
      }
    }
  }

  // ------------------------------------------------- when the headers agree

  function At(h: Headers, key: string): Option<seq<string>> {
    if key in h then Some(h[key]) else None
  }

  predicate Edits(a: Action, key: string) {
    ForHeaders(a) && a.key == key
  }

  predicate AnyEdits(actions: seq<Action>, key: string) {
    exists a :: a in actions && Edits(a, key)
  }

  function KeyEdit(v: Option<seq<string>>, a: Action, key: string): Option<seq<string>> {
    if !Edits(a, key) then v
    else match a
      case SetHeader(_, vs) => Some(vs)
      case AddHeader(_, x) => Some((if v.Some? then v.value else []) + [x])
      case _ => None
  }

  function KeyEdited(v: Option<seq<string>>, actions: seq<Action>, key: string): Option<seq<string>>
    decreases |actions|
  {
    if actions == [] then v else KeyEdited(KeyEdit(v, actions[0], key), actions[1..], key)
  }

  predicate LastEditDeletes(actions: seq<Action>, key: string)
    decreases |actions|
  {
    actions != [] &&
    if AnyEdits(actions[1..], key) then LastEditDeletes(actions[1..], key) else actions[0] == DelHeader(key)
  }

  predicate OnlyAdds(actions: seq<Action>, key: string) {
    forall a :: a in actions && Edits(a, key) ==> a.AddHeader?
  }

  /** What the client gets for one key, of which the writer held v below the buffer, is the
      same when nothing is done to it; when it was not there; or when it is set or deleted
      and not deleted last.  Adding alone loses what was there.  Edits after the first write
      are lost on the wire but kept by the buffer, so the values must agree by themselves. */
  predicate KeyAgrees(v: Option<seq<string>>, actions: seq<Action>, key: string) {
    var early := Early(actions);
    if AnyEdits(actions[|early|..], key) then
      KeyEdited(v, early, key) == Over(v, KeyEdited(None, actions, key))
    else
      v.None? || !AnyEdits(early, key) ||
      (!LastEditDeletes(early, key) && (OnlyAdds(early, key) ==> v.value == []))
  }

  function Over(v: Option<seq<string>>, w: Option<seq<string>>): Option<seq<string>> {
    if w.Some? then w else v
  }

  lemma {:induction false} EditedAt(h: Headers, actions: seq<Action>, key: string)
    ensures At(EditedBy(h, actions), key) == KeyEdited(At(h, key), actions, key)
    decreases |actions|
  {
    if actions != [] { EditedAt(EditHeaders(h, actions[0]), actions[1..], key); }
  }

  lemma {:induction false} KeyEditedSplit(v: Option<seq<string>>, xs: seq<Action>, ys: seq<Action>, key: string)
    ensures KeyEdited(v, xs + ys, key) == KeyEdited(KeyEdited(v, xs, key), ys, key)
    decreases |xs|
  {
    if xs == [] {
      assert xs + ys == ys;
    } else {
      assert (xs + ys)[1..] == xs[1..] + ys;
      KeyEditedSplit(KeyEdit(v, xs[0], key), xs[1..], ys, key);
    }
  }

  lemma {:induction false} NotEdited(v: Option<seq<string>>, actions: seq<Action>, key: string)
    requires !AnyEdits(actions, key)
    ensures KeyEdited(v, actions, key) == v
    decreases |actions|
  {
    if actions != [] {
      assert actions[0] in actions && forall a :: a in actions[1..] ==> a in actions;
      NotEdited(v, actions[1..], key);
    }
  }

  /** Adds alone append to what was there. */
  lemma {:induction false} AddsAppend(v: Option<seq<string>>, actions: seq<Action>, key: string)
    requires OnlyAdds(actions, key) && AnyEdits(actions, key)
    ensures KeyEdited(None, actions, key).Some? && KeyEdited(None, actions, key).value != []
    ensures KeyEdited(v, actions, key)
         == Some((if v.Some? then v.value else []) + KeyEdited(None, actions, key).value)
    decreases |actions|
  {
    var a, rest := actions[0], actions[1..];
    assert a in actions && forall x :: x in actions <==> x == a || x in rest;
    if !Edits(a, key) {
      AddsAppend(v, rest, key);
    } else {
      var was := if v.Some? then v.value else [];
      assert [] + [a.value] == [a.value];
      assert KeyEdit(v, a, key) == Some(was + [a.value]) && KeyEdit(None, a, key) == Some([a.value]);
      if AnyEdits(rest, key) {
        AddsAppend(Some(was + [a.value]), rest, key);
        AddsAppend(Some([a.value]), rest, key);
        var more := KeyEdited(None, rest, key).value;
        assert was + [a.value] + more == was + ([a.value] + more);
      } else {
        NotEdited(Some(was + [a.value]), rest, key);
        NotEdited(Some([a.value]), rest, key);
      }
    }
  }

  lemma {:induction false} LastDeletes(v: Option<seq<string>>, actions: seq<Action>, key: string)
    requires AnyEdits(actions, key)
    ensures KeyEdited(v, actions, key) == None <==> LastEditDeletes(actions, key)
    decreases |actions|
  {
    var a, rest := actions[0], actions[1..];
    assert forall x :: x in actions <==> x == a || x in rest;
    if AnyEdits(rest, key) {
      LastDeletes(KeyEdit(v, a, key), rest, key);
    } else {
      NotEdited(KeyEdit(v, a, key), rest, key);
    }
  }

  /** A set or a delete makes what was there before irrelevant. */
  lemma {:induction false} ResetForgets(v: Option<seq<string>>, w: Option<seq<string>>, actions: seq<Action>,
                                        key: string)
    requires !OnlyAdds(actions, key)
    ensures KeyEdited(v, actions, key) == KeyEdited(w, actions, key)
    decreases |actions|
  {
    var a, rest := actions[0], actions[1..];
    assert forall x :: x in actions <==> x == a || x in rest;
    if !OnlyAdds(rest, key) {
      ResetForgets(KeyEdit(v, a, key), KeyEdit(w, a, key), rest, key);
    }
  }

  lemma EarlyAgreement(v: Option<seq<string>>, early: seq<Action>, key: string)
    ensures KeyEdited(v, early, key) == Over(v, KeyEdited(None, early, key)) <==>
            v.None? || !AnyEdits(early, key) ||
            (!LastEditDeletes(early, key) && (OnlyAdds(early, key) ==> v.value == []))
  {
    hide KeyEdited, AnyEdits, LastEditDeletes, OnlyAdds;
    if !AnyEdits(early, key) {
      NotEdited(v, early, key);
      NotEdited(None, early, key);
    } else {
      LastDeletes(v, early, key);
      LastDeletes(None, early, key);
      if OnlyAdds(early, key) {
        AddsAppend(v, early, key);
        if v.Some? { LongerDiffers(v.value, KeyEdited(None, early, key).value); }
      } else {
        ResetForgets(v, None, early, key);
      }
    }
  }

  lemma LongerDiffers(x: seq<string>, y: seq<string>)
    ensures x + y == y <==> x == []
  {
    assert |x + y| == |x| + |y|;
  }

  lemma KeyAgreement(v: Option<seq<string>>, actions: seq<Action>, key: string)
    ensures KeyAgrees(v, actions, key) <==>
            KeyEdited(v, Early(actions), key) == Over(v, KeyEdited(None, actions, key))
  {
    hide KeyEdited, AnyEdits, LastEditDeletes, OnlyAdds;
    var early := Early(actions);
    var late := actions[|early|..];
    if !AnyEdits(late, key) {
      assert actions == early + late;
      KeyEditedSplit(None, early, late, key);
      NotEdited(KeyEdited(None, early, key), late, key);
      EarlyAgreement(v, early, key);
    }
  }

  ghost predicate HeadersAgree(below: Headers, actions: seq<Action>) {
    forall key :: KeyAgrees(At(below, key), actions, key)
  }

  lemma SameAtEachKey(g: Headers, h: Headers)
    requires forall key :: At(g, key) == At(h, key)
    ensures g == h
  {
    assert forall key :: key in g <==> At(g, key).Some?;
    assert forall key :: key in h <==> At(h, key).Some?;
    assert forall key :: key in g ==> g[key] == At(g, key).value;
    assert forall key :: key in h ==> h[key] == At(h, key).value;
  }

  lemma HeadersAgreement(below: Headers, actions: seq<Action>)
    ensures HeadersAgree(below, actions) <==>
            EditedBy(below, Early(actions)) == below + EditedBy(map[], actions)
  {
    hide KeyAgrees, EditedBy, KeyEdited;
    var direct, buffered := EditedBy(below, Early(actions)), below + EditedBy(map[], actions);
    forall key
      ensures KeyAgrees(At(below, key), actions, key) <==> At(direct, key) == At(buffered, key)
    {
      KeyAgreement(At(below, key), actions, key);
      EditedAt(below, Early(actions), key);
      EditedAt(map[], actions, key);
    }
    if HeadersAgree(below, actions) {
      SameAtEachKey(direct, buffered);
    }
  }

  // ------------------------------------------------- transparency

  /** Exactly when the client cannot tell the buffer from writing directly. */
  ghost predicate Transparent(w: Wire, actions: seq<Action>) {
    w.sent.Some? || (StatusAgrees(w.status, actions) && HeadersAgree(w.header, actions))
  }

  function Buffered(w: Wire, actions: seq<Action>): Response {
    Delivered(Committed(w, BufferRun(NEW_BUFFER, actions)))
  }

  function Direct(w: Wire, actions: seq<Action>): Response {
    Delivered(WireRun(w, actions))
  }

  /** What either way of writing delivers over a writer nobody has written to. */
  lemma WhatIsDelivered(w: Wire, actions: seq<Action>)
    requires WireSane(w)
    ensures var buffered, direct := Buffered(w, actions), Direct(w, actions);
            match w.sent
            case Some((status, header)) =>
              buffered == direct == Response(status, header, w.body + Text(actions))
            case None =>
              buffered == Response(if HandsOn(actions) then StatusWhenSent(STATUS_OK, actions) else w.status,
                                   w.header + EditedBy(map[], actions), Text(actions)) &&
              direct == Response(StatusWhenSent(w.status, actions), EditedBy(w.header, Early(actions)), Text(actions))
  {
    var b := BufferRun(NEW_BUFFER, actions);
    BufferHolds(NEW_BUFFER, actions);
    StatusStaysPositive(STATUS_OK, actions);
    WireSends(w, actions);
    CommitDelivers(w, b);
    hide BufferRun, WireRun, Committed, Delivered, StatusWhenSent, EditedBy, AnySends, Text;
    assert Speaks(b) <==> HandsOn(actions);
    assert "" + Text(actions) == Text(actions);
  }

  /** Over any writer, written to or not, and for every sequence of actions: the body is the
      one that writing directly would have delivered; the status is if and only if it agrees,
      the headers if and only if each key does; so the whole response is exactly when the
      actions are transparent. */
  lemma BufferingIsTransparentIff(w: Wire, actions: seq<Action>)
    requires WireSane(w)
    ensures var buffered, direct := Buffered(w, actions), Direct(w, actions);
            buffered.body == direct.body &&
            (buffered.status == direct.status <==> w.sent.Some? || StatusAgrees(w.status, actions)) &&
            (buffered.header == direct.header <==> w.sent.Some? || HeadersAgree(w.header, actions)) &&
            (buffered == direct <==> Transparent(w, actions))
  {
    hide Buffered, Direct, StatusWhenSent, EditedBy, HeadersAgree, Announces, Text;
    WhatIsDelivered(w, actions);
    StatusFrom(STATUS_OK, w.status, actions);
    StatusFrom(w.status, STATUS_OK, actions);
    HeadersAgreement(w.header, actions);
  }

  /** Headers are edited before the first write, as handlers do. */
  ghost predicate HeadersFirst(actions: seq<Action>) {
    forall a :: a in actions[|Early(actions)|..] ==> !ForHeaders(a)
  }

  /** For an ordinary request -- a writer still at 200 and headers before the first write --
      what is left of the condition is what happens to the keys the writer has already. */
  lemma OrdinaryRequests(below: Headers, actions: seq<Action>)
    requires HeadersFirst(actions)
    ensures Buffered(Unsent(below, STATUS_OK), actions) == Direct(Unsent(below, STATUS_OK), actions) <==>
            forall key :: key in below && AnyEdits(Early(actions), key) ==>
              !LastEditDeletes(Early(actions), key) && (OnlyAdds(Early(actions), key) ==> below[key] == [])
  {
    hide LastEditDeletes, OnlyAdds, Buffered, Direct, HandsOn, Announces;
    BufferingIsTransparentIff(Unsent(below, STATUS_OK), actions);
    assert StatusAgrees(STATUS_OK, actions);
    assert forall key :: !AnyEdits(actions[|Early(actions)|..], key);
    hide AnyEdits, HeadersFirst;
    assert forall key :: KeyAgrees(At(below, key), actions, key) <==>
      (key in below && AnyEdits(Early(actions), key) ==>
        !LastEditDeletes(Early(actions), key) && (OnlyAdds(Early(actions), key) ==> below[key] == []));
  }

  // ------------------------------------------------- three ways to tell

  /** Adding to a header that earlier middleware has set replaces it. */
  lemma AddingLosesWhatWasThere(w: Wire, key: string, value: string, data: string)
    requires WireSane(w) && w.sent.None? && key in w.header
    ensures var actions := [AddHeader(key, value), Write(data)];
            Buffered(w, actions).header == w.header[key := [value]] &&
            Direct(w, actions).header == w.header[key := w.header[key] + [value]]
  {
    hide Buffered, Direct, StatusWhenSent, Text, HandsOn;
    var add, write := AddHeader(key, value), Write(data);
    WhatIsDelivered(w, [add, write]);
    OneEdit(w.header, add, write);
    assert [] + [value] == [value];
  }

  /** Deleting it leaves it there. */
  lemma DeletingDoesNotDelete(w: Wire, key: string, data: string)
    requires WireSane(w) && w.sent.None?
    ensures var actions := [DelHeader(key), Write(data)];
            Buffered(w, actions).header == w.header && Direct(w, actions).header == w.header - {key}
  {
    hide Buffered, Direct, StatusWhenSent, Text, HandsOn;
    var del, write := DelHeader(key), Write(data);
    WhatIsDelivered(w, [del, write]);
    OneEdit(w.header, del, write);
    assert w.header + map[] == w.header;
  }

  /** A status that earlier middleware has set is reset to 200 by the first write. */
  lemma WritingResetsTheStatus(w: Wire, data: string)
    requires WireSane(w) && w.sent.None?
    ensures Buffered(w, [Write(data)]).status == 200 && Direct(w, [Write(data)]).status == w.status
  {
    hide Buffered, Direct, EditedBy, Text;
    WhatIsDelivered(w, [Write(data)]);
    assert Write(data) in [Write(data)] && Sends(Write(data));
  }

  /** A header set after the first write is lost on the wire and kept by the buffer. */
  lemma LateHeaderIsKept(w: Wire, key: string, values: seq<string>, data: string)
    requires WireSane(w) && w.sent.None?
    ensures var actions := [Write(data), SetHeader(key, values)];
            Buffered(w, actions).header == w.header[key := values] && Direct(w, actions).header == w.header
  {
    hide Buffered, Direct, StatusWhenSent, Text, HandsOn;
    var write, set_ := Write(data), SetHeader(key, values);
    WhatIsDelivered(w, [write, set_]);
    OneEdit(map[], write, set_);
  }

  lemma OneEdit(h: Headers, a: Action, b: Action)
    ensures EditedBy(h, [a, b]) == EditHeaders(EditHeaders(h, a), b)
    ensures !Sends(a) && Sends(b) ==> Early([a, b]) == [a]
    ensures Sends(a) ==> Early([a, b]) == []
    ensures EditedBy(h, [a]) == EditHeaders(h, a) && EditedBy(map[], [a, b]) == EditHeaders(EditHeaders(map[], a), b)
  {
    assert [a, b][1..] == [b] && [b][1..] == [] && [a][1..] == [];
    assert EditedBy(EditHeaders(h, a), [b]) == EditHeaders(EditHeaders(h, a), b);
    assert EditedBy(EditHeaders(map[], a), [b]) == EditHeaders(EditHeaders(map[], a), b);
    assert Early([b]) == if Sends(b) then [] else [b];
  }
}
