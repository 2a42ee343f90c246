/** The calls that configure a connection before traffic, and the settings the transport gives every
    stream: they meet the premises of the theorems. */
module Settings {
  import opened Serial
  import opened Wire
  import opened Control
  import opened Refinement
  import Congestion
  import Transport

  /** What `ikcp_create` starts with. */
  function Defaults(conv: int): Config {
    Config(true, conv, MTU_DEF, WND_SND, WND_RCV, false, 0, INTERVAL, 0, FASTACK_LIMIT, false, RTO_MIN, DEADLINK)
  }

  function Clamped(interval: int): int { Min(Max(interval, 10), 5000) }

  /** `ikcp_nodelay`: a negative argument leaves its setting alone. */
  function NoDelay(cfg: Config, nodelay: int, interval: int, resend: int, nc: int): Config {
    cfg.(nodelay := if nodelay >= 0 then nodelay else cfg.nodelay,
         minRto := if nodelay < 0 then cfg.minRto else if nodelay > 0 then RTO_NDL else RTO_MIN,
         interval := if interval >= 0 then Clamped(interval) else cfg.interval,
         fastresend := if resend >= 0 then resend else cfg.fastresend,
         nocwnd := if nc >= 0 then nc != 0 else cfg.nocwnd)
  }

  /** `ikcp_wndsize`: the receive window never falls below the largest message. */
  function WndSize(cfg: Config, sndWnd: int, rcvWnd: int): Config {
    cfg.(sndWnd := if sndWnd > 0 then sndWnd else cfg.sndWnd,
         rcvWnd := if rcvWnd > 0 then Max(rcvWnd, WND_RCV) else cfg.rcvWnd)
  }

  /** `ikcp_setmtu`: too small a value is refused. */
  function SetMtu(cfg: Config, mtu: int): Config
    requires mtu < HALF
  {
    if mtu < 50 then cfg else cfg.(mtu := mtu)
  }

  datatype Setting =
    | SetNoDelay(nodelay: int, interval: int, resend: int, nc: int)
    | SetWndSize(sndWnd: int, rcvWnd: int)
    | SetMtuTo(mtu: int)
    | SetStream(on: bool)
    | SetInterval(ms: int)

  /** Arguments of the C type `int`. */
  predicate IsInt(x: int) { -HALF <= x < HALF }

  predicate Arguments(s: Setting) {
    match s
    case SetNoDelay(a, b, c, d) => IsInt(a) && IsInt(b) && IsInt(c) && IsInt(d)
    case SetWndSize(a, b) => IsInt(a) && IsInt(b)
    case SetMtuTo(m) => IsInt(m)
    case SetStream(_) => true
    case SetInterval(ms) => IsInt(ms)
  }

  function Apply(cfg: Config, s: Setting): Config
    requires Arguments(s)
  {
    match s
    case SetNoDelay(a, b, c, d) => NoDelay(cfg, a, b, c, d)
    case SetWndSize(a, b) => WndSize(cfg, a, b)
    case SetMtuTo(m) => SetMtu(cfg, m)
    case SetStream(on) => cfg.(stream := on)
    case SetInterval(ms) => cfg.(interval := Clamped(ms))
  }

  function ApplyAll(cfg: Config, ss: seq<Setting>): Config
    requires forall i :: 0 <= i < |ss| ==> Arguments(ss[i])
  {
    if ss == [] then cfg else Apply(ApplyAll(cfg, ss[..|ss| - 1]), ss[|ss| - 1])
  }

  /** Whatever is called before traffic, with any arguments, the settings are valid. */
  lemma {:induction false} AnySettingsValid(conv: int, ss: seq<Setting>)
    requires 0 <= conv < M32 && forall i :: 0 <= i < |ss| ==> Arguments(ss[i])
    ensures var cfg := ApplyAll(Defaults(conv), ss);
            cfg.Valid() && cfg.wrap && cfg.minRto == if cfg.nodelay == 0 then 100 else 30
    decreases |ss|
  {
    if ss != [] {
      AnySettingsValid(conv, ss[..|ss| - 1]);
      ApplyKeepsValid(ApplyAll(Defaults(conv), ss[..|ss| - 1]), ss[|ss| - 1]);
    }
  }

  lemma ApplyKeepsValid(cfg: Config, s: Setting)
    requires cfg.Valid() && Arguments(s)
    ensures Apply(cfg, s).Valid() && Apply(cfg, s).wrap == cfg.wrap
    ensures cfg.minRto == (if cfg.nodelay == 0 then 100 else 30) ==>
              Apply(cfg, s).minRto == if Apply(cfg, s).nodelay == 0 then 100 else 30
  {
  }

  /** A setting takes effect as given when it is in range, and leaves everything else alone; an argument out of
      range is bounded, or ignored if it is negative (a window also if it is 0, an mtu if it is below 50). */
  lemma SettingsTake(cfg: Config, s: Setting)
    requires cfg.Valid() && Arguments(s)
    ensures var c := Apply(cfg, s);
            && c.conv == cfg.conv && c.fastlimit == cfg.fastlimit && c.deadLink == cfg.deadLink
            && (!s.SetNoDelay? ==> c.nodelay == cfg.nodelay && c.fastresend == cfg.fastresend && c.nocwnd == cfg.nocwnd)
            && (!s.SetNoDelay? && !s.SetInterval? ==> c.interval == cfg.interval)
            && (!s.SetWndSize? ==> c.sndWnd == cfg.sndWnd && c.rcvWnd == cfg.rcvWnd)
            && (!s.SetMtuTo? ==> c.mtu == cfg.mtu) && (!s.SetStream? ==> c.stream == cfg.stream)
    ensures s.SetNoDelay? ==>
              var c := Apply(cfg, s);
              && c.nodelay == (if s.nodelay < 0 then cfg.nodelay else s.nodelay)
              && (s.interval < 0 ==> c.interval == cfg.interval) && (10 <= s.interval <= 5000 ==> c.interval == s.interval)
              && c.fastresend == (if s.resend < 0 then cfg.fastresend else s.resend)
              && (c.nocwnd <==> s.nc > 0 || (s.nc < 0 && cfg.nocwnd))
    ensures s.SetWndSize? ==>
              var c := Apply(cfg, s);
              && c.sndWnd == (if s.sndWnd <= 0 then cfg.sndWnd else s.sndWnd)
              && c.rcvWnd == (if s.rcvWnd <= 0 then cfg.rcvWnd else if s.rcvWnd < 128 then 128 else s.rcvWnd)
    ensures s.SetMtuTo? ==> Apply(cfg, s).mtu == if s.mtu < 50 then cfg.mtu else s.mtu
    ensures s.SetInterval? && 10 <= s.ms <= 5000 ==> Apply(cfg, s).interval == s.ms
    ensures s.SetStream? ==> Apply(cfg, s).stream == s.on
  {
  }

  /** The settings of stream `i` of the transport, whose conversation is 0x11223344 + i. */
  function StreamSettings(i: nat): Config {
    SetMtu(WndSize(NoDelay(Defaults(0x1122_3344 + i), 1, 5, 2, 1), 4096, 4096), 16384).(stream := true)
  }

  /** Every stream has these settings, and they meet the premises of the theorems: the window bytes fit
      32 bits, a 128 KB write fits 127 segments, the two ends match, and a segment's timeout cannot overflow
      (`nodelay` 1). */
  lemma StreamsMeetPremises(i: nat)
    requires i < 4
    ensures var cfg := StreamSettings(i);
            && cfg == Config(true, 0x1122_3344 + i, 16384, 4096, 4096, true, 1, 10, 2, 5, true, 30, 20)
            && cfg.Valid() && cfg.nodelay == 1 && cfg.rcvWnd < 65536 && cfg.interval == 10
            && Congestion.Roomy(cfg) && Transport.Ample(cfg)
            && Compatible(cfg.(wrap := false), cfg.(wrap := false))
  {
    var cfg := StreamSettings(i);
    assert cfg.Mss() == 16360 && Congestion.Peak(cfg) == 65535;
  }
}
