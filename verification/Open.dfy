/** Opening a handle on a filter expression, and what it then does with a packet. */
module Open {
  import opened Words
  import opened Fields
  import opened Filter
  import opened Simplify
  import opened Compile
  import opened Reach
  import opened Cube
  import opened Walk
  import opened Lower
  import L = Lower
  import Capture
  import Packets
  import Values

  /** What a handle keeps of its filter: the object, the rules, and the hooks it can skip. */
  datatype Opened = Opened(obj: seq<Insn>, tables: Tables, noInbound: bool, noOutbound: bool)

  predicate Ready(layer: Layer, h: Opened) {
    1 <= |h.obj| <= MAXLEN && Forward(h.obj) && FieldsValid(h.obj, layer) && TablesValid(h.tables)
  }

  /** The skipped hooks see no packet the filter accepts. */
  ghost predicate HooksCover(layer: Layer, h: Opened)
    requires Ready(layer, h)
  {
    forall s: Subject :: AgreeingPacket(s) && Accepts(h.obj, Jump(0), s.view) ==>
      if s.attrs.dir == Capture.DIR_INGRESS then !h.noInbound else !h.noOutbound
  }

  /** No cube of the filter is encoded so that it loses packets; fitting literals see to that. */
  predicate Sound(obj: seq<Insn>)
    requires 0 < |obj| && Forward(obj)
  {
    Encodable(CubesOf(false, obj)) || LiteralsFit(obj)
  }

  /** No cube of the filter is encoded too widely without this showing; clean literals see to that. */
  predicate Exact(obj: seq<Insn>)
    requires 0 < |obj| && Forward(obj)
  {
    Clean(CubesOf(false, obj)) || LiteralsClean(obj)
  }

  method OpenFilter(layer: Layer, e: Expr) returns (h: Option<Opened>)
    requires IsPacketLayer(layer) && ExprFits(layer, e)
    ensures h.None? <==> Size(e) > MAXLEN
    ensures h.Some? ==> Ready(layer, h.value) && HooksCover(layer, h.value)
    ensures h.Some? ==> (h.value.noInbound <==> !CanBe(h.value.obj, INBOUND, OUTBOUND))
    ensures h.Some? ==> (h.value.noOutbound <==> !CanBe(h.value.obj, OUTBOUND, INBOUND))
    ensures h.Some? ==> forall v: View :: OthersTyped(v) && AllSettled(e, v) ==>
              Accepts(h.value.obj, Jump(0), v) == ExprMeaning(e, v)
    ensures h.Some? && WithinBudget(false, h.value.obj) && !TooMany(CubesOf(false, h.value.obj)) ==>
              OnPaths(h.value.obj, h.value.tables)
    ensures h.Some? && Sound(h.value.obj) ==> Superset(h.value.obj, h.value.tables)
    ensures h.Some? && h.value.tables.exact && Exact(h.value.obj) ==> Subset(h.value.obj, h.value.tables)
  {
    hide OthersTyped, AllSettled, ExprMeaning, Folded, Accepts, FieldsValid, ExprFits, FromCompiler;
    hide OnPaths, CanBe, Encodable, Clean, TableMatches, TablesValid, CubesFrom, Visits, Rendered, TooMany, LiteralsFit;
    hide LiteralsClean;
    var compiled := CompileFilter(e);
    if compiled.None? {
      return None;
    }
    var obj := compiled.value;
    var flags := AnalyzeFilter(layer, obj);
    var tables := L.Lower(layer, obj);
    h := Some(Opened(obj, tables.value, !flags.inbound, !flags.outbound));
  }

  function Configured(cfg: Capture.Config, h: Opened): Capture.Config {
    cfg.(noInbound := h.noInbound, noOutbound := h.noOutbound)
  }

  /** The packet reaches the rules, leaving aside what the filter says about directions. */
  predicate Offered(cfg: Capture.Config, skb: Capture.Skb, dir: nat, now: nat) {
    Capture.ReachesRules(cfg.(noInbound := false, noOutbound := false), skb, dir, now)
  }

  lemma SkippedByDirection(cfg: Capture.Config, h: Opened, skb: Capture.Skb, dir: nat, now: nat)
    requires Offered(cfg, skb, dir, now) && !Capture.ReachesRules(Configured(cfg, h), skb, dir, now)
    ensures (dir == Capture.DIR_INGRESS && h.noInbound) || (dir == Capture.DIR_EGRESS && h.noOutbound)
  {
  }

  lemma SkippedIsRejected(layer: Layer, h: Opened, s: Subject)
    requires Ready(layer, h) && HooksCover(layer, h) && AgreeingPacket(s)
    requires (s.attrs.dir == Capture.DIR_INGRESS && h.noInbound) || (s.attrs.dir == Capture.DIR_EGRESS && h.noOutbound)
    ensures !Accepts(h.obj, Jump(0), s.view)
  {
  }

  lemma SameRing(cfg: Capture.Config, h: Opened, skb: Capture.Skb, ringFree: bool)
    ensures Capture.FitsRing(Configured(cfg, h), skb, ringFree) == Capture.FitsRing(cfg, skb, ringFree)
  {
  }

  /** From the expression to the packet: compiling, folding, lowering, skipping hooks, matching
      rules in the kernel and re-checking in user space together do what the expression says. */
  method FilterPacket(cfg: Capture.Config, layer: Layer, e: Expr, mode: Capture.Mode, skb: Capture.Skb, view: View,
                      dir: nat, now: nat, ringFree: bool)
    returns (h: Option<Opened>, f: Capture.Fate)
    requires IsPacketLayer(layer) && ExprFits(layer, e)
    requires dir == skb.attrs.dir && (dir == Capture.DIR_INGRESS || dir == Capture.DIR_EGRESS)
    ensures (h.None? <==> Size(e) > MAXLEN) && (h.Some? ==> Ready(layer, h.value))
    ensures h.Some? && Sound(h.value.obj) && (h.value.tables.exact ==> Exact(h.value.obj)) ==>
            Offered(cfg, skb, dir, now) && !skb.fragment && Capture.FitsRing(cfg, skb, ringFree) ==>
            AgreesWith(false, h.value.obj, Subject(view, skb.attrs)) && OthersTyped(view) && AllSettled(e, view) ==>
            Capture.Right(mode, ExprMeaning(e, view), f)
  {
    hide OthersTyped, AllSettled, ExprMeaning, Accepts, FieldsValid, TableMatches, TablesValid, Superset, Subset;
    hide Sound, Exact, ExprFits, HooksCover, AgreeingPacket, Configured, Offered;
    hide Capture.ReachesRules, Capture.FitsRing;
    f := Capture.Fate(true, false, false);
    h := OpenFilter(layer, e);
    if h.None? {
      return;
    }
    var obj, inForce := h.value.obj, Configured(cfg, h.value);
    f := Capture.Deliver(inForce, layer, obj, h.value.tables, mode, skb, view, dir, now, ringFree);
    SameRing(cfg, h.value, skb, ringFree);
    ghost var s := Subject(view, skb.attrs);
    if AgreesWith(false, obj, s) && Offered(cfg, skb, dir, now) && !Capture.ReachesRules(inForce, skb, dir, now) {
      SkippedByDirection(cfg, h.value, skb, dir, now);
      SkippedIsRejected(layer, h.value, s);
    }
  }

  /** A packet at a hook, as the kernel's parser hands it on. */
  function SkbOf(at: Capture.Skb, k: Option<Packets.Parsed>, len: u32, outbound: bool, loopback: bool): Capture.Skb {
    if k.None? then at.(len := len, parsed := false, attrs := at.attrs.(dir := if outbound then 2 else 1))
    else
      at.(len := len, parsed := true, fragment := k.value.fragment,
          attrs := Packets.AttrsOf(k.value, outbound, loopback))
  }

  /** From bytes: both parsers read the packet, the kernel's side meets the rules and the evaluator's
      side the filter.  On an unfragmented packet with complete headers the verdict is that of the
      expression on the headers as the standards lay them out. */
  method FilterBytes(cfg: Capture.Config, layer: Layer, e: Expr, mode: Capture.Mode, at: Capture.Skb,
                     pkt: seq<u8>, linear: nat, outbound: bool, loopback: bool, meta: Values.Meta, now: nat,
                     ringFree: bool)
    returns (h: Option<Opened>, k: Option<Packets.Parsed>, f: Capture.Fate)
    requires IsPacketLayer(layer) && ExprFits(layer, e)
    requires linear <= |pkt| < B32
    ensures (h.None? <==> Size(e) > MAXLEN) && (h.Some? ==> Ready(layer, h.value))
    ensures Packets.Layout(pkt, linear).Some? ==>
              var (proto, off) := Packets.Layout(pkt, linear).value;
              k.Some? && Packets.SamePacket(k.value, Packets.Reference(pkt, proto, off))
    ensures h.Some? && Packets.Layout(pkt, linear).Some? ==>
              var (proto, off) := Packets.Layout(pkt, linear).value;
              var skb := SkbOf(at, k, |pkt|, outbound, loopback);
              var view := Packets.ViewOf(Packets.Reference(pkt, proto, off), outbound, loopback,
                                         Values.OthersOf(Values.Input(pkt, proto, off, meta)));
              Sound(h.value.obj) && (h.value.tables.exact ==> Exact(h.value.obj)) &&
              Offered(cfg, skb, skb.attrs.dir, now) && Capture.FitsRing(cfg, skb, ringFree) &&
              (GuessesFamilies(h.value.obj) ==> Unmapped(skb.attrs)) && |pkt| <= 40 + 0xFFFF && AllSettled(e, view) ==>
              Capture.Right(mode, ExprMeaning(e, view), f)
  {
    hide OthersTyped, AllSettled, ExprMeaning, ExprFits, Ready, Sound, Exact, Offered, AgreeingPacket;
    hide Packets.Reference, Packets.Layout, Capture.FitsRing, Capture.Right, Unmapped, Values.OthersOf, Values.Laid;
    k := Packets.KernelParse(pkt, linear);
    var u, off := Packets.UserParse(pkt, linear);
    var skb := SkbOf(at, k, |pkt|, outbound, loopback);
    var headers := if u.Some? then u.value else Packets.Headers(false, V4(0, 0, 0, 0), 0, Missing);
    var x := Values.Input(pkt, headers.protocol, off, meta);
    var view := Packets.ViewOf(headers, outbound, loopback, Values.OthersOf(x));
    if Packets.Layout(pkt, linear).Some? {
      Values.ReadTyped(x, linear, outbound, loopback);
    }
    h, f := FilterPacket(cfg, layer, e, mode, skb, view, skb.attrs.dir, now, ringFree);
  }
}
