/** The option loop of djstubify2.py: how `-t` and `-l` build the packed type map. */
module Options {
  import opened Bytes
  import opened Header

  /** Options that only select what the run does. */
  datatype Switch = Info | Remove | Strip | Generate | Verbose

  /** Numbers are what Python's `int` makes of the argument; for `-V` and `-t`, zero stands
      for an argument that is no number, too. */
  datatype Opt =
    | RequestVersion(version: int)   // -V
    | SetType(kind: int)             // -t
    | Link(content: seq<byte>)       // -l, with the bytes of the named file
    | NameAt(offset: int)            // -n
    | AddFlags(flags: int)           // -f
    | Output(name: string)           // -o
    | Template(stub: seq<byte>)      // -S, with the bytes of the named file
    | Select(switch: Switch)         // -i, -r, -s, -g, -d
    | Help                           // -h and -v

  datatype Settings = Settings(
    stubVer: int, reqVer: int, typeVal: int, typeMap: int, typeShift: nat,
    overlays: seq<seq<byte>>, nmoffs: int, flags: int,
    oname: string, template: Option<seq<byte>>, switches: set<Switch>)

  /** The program can also exit in the middle of its options. */
  datatype Parse = Parsed(s: Settings) | Exited(status: int)

  const START := Settings(8, 0, 0, 0, 0, [], 0, 0, "", None, {})

  /** How far a number is from being all zeros or all ones. */
  function Magnitude(x: int): nat { if x < 0 then -x - 1 else x }

  /** Python's `|`, on numbers in two's complement of any length. */
  function BitOr(a: int, b: int): int
    decreases Magnitude(a) + Magnitude(b)
  {
    if -1 <= a <= 0 && -1 <= b <= 0 then Min(a, b)
    else 2 * BitOr(a / 2, b / 2) + if a % 2 == 1 || b % 2 == 1 then 1 else 0
  }

  /** Python's `x & ~(1 << bit)`. */
  function ClearBit(x: int, bit: nat): int { if HasBit(x, bit) then x - Pow2(bit) else x }

  function Apply(s: Settings, o: Opt): Parse {
    match o
    case RequestVersion(v) =>
      if v == 0 || v > s.stubVer || v < s.stubVer - 1 then Exited(1)
      else Parsed(s.(reqVer := v, stubVer := v))
    case SetType(t) =>
      if t == 0 then Exited(1)
      else Parsed(s.(typeVal := t, typeMap := BitOr(s.typeMap, t * Pow2(s.typeShift))))
    case Link(c) =>
      if s.typeVal == 0 then Exited(1)
      else Parsed(s.(overlays := s.overlays + [c], typeShift := s.typeShift + 4))
    case NameAt(n) => Parsed(s.(nmoffs := n))
    case AddFlags(f) => Parsed(s.(flags := BitOr(s.flags, f)))
    case Output(name) => Parsed(s.(oname := name))
    case Template(stub) => Parsed(s.(template := Some(stub)))
    case Select(w) => Parsed(s.(switches := s.switches + {w}))
    case Help => Exited(0)
  }

  /** The settings after all of `opts`. */
  function Run(opts: seq<Opt>): Parse {
    if opts == [] then Parsed(START)
    else
      match Run(opts[..|opts| - 1])
      case Exited(status) => Exited(status)
      case Parsed(s) => Apply(s, opts[|opts| - 1])
  }

  lemma {:induction false} ExitStays(opts: seq<Opt>, n: nat)
    requires n <= |opts| && Run(opts[..n]).Exited?
    ensures Run(opts) == Run(opts[..n])
  {
    if n == |opts| {
      assert opts[..n] == opts;
    } else {
      assert opts[..|opts| - 1][..n] == opts[..n];
      ExitStays(opts[..|opts| - 1], n);
    }
  }

  lemma SnocRun(opts: seq<Opt>, o: Opt)
    ensures Run(opts + [o]) == if Run(opts).Exited? then Run(opts) else Apply(Run(opts).s, o)
  {
    assert (opts + [o])[..|opts|] == opts;
  }

  // ---------- which command lines are accepted

  /** The version in force in front of option `i`. */
  function VersionBefore(opts: seq<Opt>, i: nat): int
    requires i <= |opts|
  {
    if i == 0 then 8
    else if opts[i - 1].RequestVersion? then opts[i - 1].version
    else VersionBefore(opts, i - 1)
  }

  /** Option `i` does not make the program exit: no help, no type zero, no overlay before the
      first type, and no version but the one in force or the one below. */
  predicate Accepted(opts: seq<Opt>, i: nat)
    requires i < |opts|
  {
    match opts[i]
    case Help => false
    case SetType(t) => t != 0
    case Link(_) => exists j :: 0 <= j < i && opts[j].SetType?
    case RequestVersion(v) => v != 0 && VersionBefore(opts, i) - 1 <= v <= VersionBefore(opts, i)
    case _ => true
  }

  predicate AllAccepted(opts: seq<Opt>) { forall i :: 0 <= i < |opts| ==> Accepted(opts, i) }

  lemma {:induction false} SameVersions(opts: seq<Opt>, front: seq<Opt>, i: nat)
    requires i <= |front| <= |opts| && front == opts[..|front|]
    ensures VersionBefore(front, i) == VersionBefore(opts, i)
  {
    if i == 0 {
    } else {
      SameVersions(opts, front, i - 1);
    }
  }

  lemma AcceptedSnoc(opts: seq<Opt>)
    requires opts != []
    ensures AllAccepted(opts) <==> AllAccepted(opts[..|opts| - 1]) && Accepted(opts, |opts| - 1)
  {
    hide VersionBefore;
    var front := opts[..|opts| - 1];
    forall i | 0 <= i < |front| ensures Accepted(front, i) <==> Accepted(opts, i) {
      SameVersions(opts, front, i);
      assert forall j :: 0 <= j < i ==> front[j] == opts[j];
    }
  }

  lemma NothingAccepted()
    ensures AllAccepted([])
  {
  }

  /** A command line is gone through to its end if and only if each of its options is
      accepted. */
  lemma {:induction false} ParsesExactly(opts: seq<Opt>)
    ensures Run(opts).Parsed? <==> AllAccepted(opts)
    ensures Run(opts).Parsed? ==>
              Run(opts).s.stubVer == VersionBefore(opts, |opts|) &&
              (Run(opts).s.typeVal != 0 <==> exists j :: 0 <= j < |opts| && opts[j].SetType?)
  {
    hide AllAccepted, BitOr, Pow2;
    if opts == [] {
      assert AllAccepted([]) by {
        NothingAccepted();
      }
    } else {
      var n := |opts| - 1;
      var front := opts[..n];
      ParsesExactly(front);
      AcceptedSnoc(opts);
      SameVersions(opts, front, n);
      assert forall j :: 0 <= j < n ==> front[j] == opts[j];
      if Run(front).Parsed? && opts[n].SetType? {
        assert opts[n].SetType?;
      }
    }
  }

  lemma AcceptedFront(opts: seq<Opt>, front: seq<Opt>, i: nat)
    requires i < |front| <= |opts| && front == opts[..|front|]
    ensures Accepted(front, i) <==> Accepted(opts, i)
  {
    SameVersions(opts, front, i);
    assert forall j :: 0 <= j <= i ==> front[j] == opts[j];
  }

  /** If it is not, the first option that is not accepted makes the program exit: with
      status 0 for help, else with 1. */
  lemma {:induction false} ExitsExactly(opts: seq<Opt>)
    requires Run(opts).Exited?
    ensures exists i :: 0 <= i < |opts| && AllAccepted(opts[..i]) && !Accepted(opts, i) &&
              Run(opts).status == if opts[i].Help? then 0 else 1
  {
    hide AllAccepted, BitOr, Pow2, Accepted;
    var n := |opts| - 1;
    var front := opts[..n];
    ParsesExactly(opts);
    ParsesExactly(front);
    AcceptedSnoc(opts);
    if Run(front).Exited? {
      ExitsExactly(front);
      var i :| 0 <= i < |front| && AllAccepted(front[..i]) && !Accepted(front, i) &&
               Run(front).status == if front[i].Help? then 0 else 1;
      assert front[..i] == opts[..i];
      AcceptedFront(opts, front, i);
    } else {
      assert opts[..n] == front;
    }
  }

  // ---------- what is kept of them

  predicate SameOption(a: Opt, b: Opt) {
    (a.RequestVersion? && b.RequestVersion?) || (a.SetType? && b.SetType?) || (a.NameAt? && b.NameAt?) ||
    (a.Output? && b.Output?) || (a.Template? && b.Template?)
  }

  /** Option `i` is the last one of its letter. */
  predicate IsLast(opts: seq<Opt>, i: nat) {
    i < |opts| && forall j :: i < j < |opts| ==> !SameOption(opts[i], opts[j])
  }

  /** The value of an option is the one in force. */
  predicate Holds(s: Settings, o: Opt) {
    match o
    case RequestVersion(v) => s.reqVer == v && s.stubVer == v
    case SetType(t) => s.typeVal == t
    case NameAt(n) => s.nmoffs == n
    case Output(name) => s.oname == name
    case Template(stub) => s.template == Some(stub)
    case _ => true
  }

  /** Of options given several times, the last one counts. */
  lemma {:induction false} LastCounts(opts: seq<Opt>, i: nat)
    requires Run(opts).Parsed? && IsLast(opts, i)
    ensures Holds(Run(opts).s, opts[i])
  {
    hide BitOr, Pow2;
    var n := |opts| - 1;
    if i == n {
    } else {
      var front := opts[..n];
      assert forall j :: 0 <= j < n ==> front[j] == opts[j];
      LastCounts(front, i);
      assert !SameOption(opts[i], opts[n]);
    }
  }

  lemma OthersStay(s: Settings, o: Opt)
    requires Apply(s, o).Parsed?
    ensures var t := Apply(s, o).s;
            (!o.RequestVersion? ==> t.reqVer == s.reqVer && t.stubVer == s.stubVer) &&
            (!o.NameAt? ==> t.nmoffs == s.nmoffs) && (!o.Output? ==> t.oname == s.oname) &&
            (!o.Template? ==> t.template == s.template)
  {
    hide BitOr, Pow2;
  }

  /** Of options not given, the value is the one at the start. */
  lemma {:induction false} DefaultsStay(opts: seq<Opt>)
    requires Run(opts).Parsed?
    ensures var s := Run(opts).s;
            ((forall i :: 0 <= i < |opts| ==> !opts[i].RequestVersion?) ==> s.reqVer == 0 && s.stubVer == 8) &&
            ((forall i :: 0 <= i < |opts| ==> !opts[i].NameAt?) ==> s.nmoffs == 0) &&
            ((forall i :: 0 <= i < |opts| ==> !opts[i].Output?) ==> s.oname == "") &&
            ((forall i :: 0 <= i < |opts| ==> !opts[i].Template?) ==> s.template == None)
  {
    hide Apply;
    if opts == [] {
    } else {
      var n := |opts| - 1;
      var front := opts[..n];
      assert forall j :: 0 <= j < n ==> front[j] == opts[j];
      DefaultsStay(front);
      OthersStay(Run(front).s, opts[n]);
    }
  }

  lemma SwitchStep(s: Settings, o: Opt, w: Switch)
    requires Apply(s, o).Parsed?
    ensures w in Apply(s, o).s.switches <==> w in s.switches || o == Select(w)
  {
    hide BitOr, Pow2;
  }

  /** A switch is set exactly if some option selects it. */
  lemma {:induction false} SwitchesCollect(opts: seq<Opt>, w: Switch)
    requires Run(opts).Parsed?
    ensures w in Run(opts).s.switches <==> Select(w) in opts
  {
    hide Apply;
    if opts == [] {
    } else {
      var front, o := opts[..|opts| - 1], opts[|opts| - 1];
      SwitchesCollect(front, w);
      assert opts == front + [o];
      SwitchStep(Run(front).s, o, w);
    }
  }

  lemma KeptOf(opts: seq<Opt>)
    ensures Run(opts).Parsed? <==> AllAccepted(opts)
    ensures Run(opts).Parsed? ==> forall i :: 0 <= i < |opts| && IsLast(opts, i) ==> Holds(Run(opts).s, opts[i])
    ensures Run(opts).Parsed? ==> forall w :: w in Run(opts).s.switches <==> Select(w) in opts
  {
    hide AllAccepted, IsLast, Holds, Run;
    ParsesExactly(opts);
    if Run(opts).Parsed? {
      forall i | 0 <= i < |opts| && IsLast(opts, i) ensures Holds(Run(opts).s, opts[i]) {
        LastCounts(opts, i);
      }
      forall w ensures w in Run(opts).s.switches <==> Select(w) in opts {
        SwitchesCollect(opts, w);
      }
    }
  }

  /** The option loop. */
  method ParseOptions(opts: seq<Opt>) returns (r: Parse)
    ensures r == Run(opts)
    ensures r.Parsed? <==> AllAccepted(opts)
    ensures r.Parsed? ==> forall i :: 0 <= i < |opts| && IsLast(opts, i) ==> Holds(r.s, opts[i])
    ensures r.Parsed? ==> forall w :: w in r.s.switches <==> Select(w) in opts
  {
    hide AllAccepted, IsLast, Holds;
    KeptOf(opts);
    var stubVer, reqVer, typeVal, typeMap: int, typeShift: nat := 8, 0, 0, 0, 0;
    var overlays: seq<seq<byte>>, nmoffs, flags: int := [], 0, 0;
    var oname: string, template: Option<seq<byte>>, switches: set<Switch> := "", None, {};
    for i := 0 to |opts|
      invariant Run(opts[..i]) ==
                Parsed(Settings(stubVer, reqVer, typeVal, typeMap, typeShift, overlays, nmoffs, flags,
                                oname, template, switches))
    {
      assert opts[..i + 1][..i] == opts[..i];
      match opts[i]
      case RequestVersion(v) =>
        if v == 0 || v > stubVer || v < stubVer - 1 {
          ExitStays(opts, i + 1);
          return Exited(1);
        } else if v == stubVer - 1 {
          stubVer := v;
        }
        reqVer := v;
      case SetType(t) =>
        if t == 0 {
          ExitStays(opts, i + 1);
          return Exited(1);
        }
        typeVal := t;
        typeMap := BitOr(typeMap, t * Pow2(typeShift));
      case Link(c) =>
        if typeVal == 0 {
          ExitStays(opts, i + 1);
          return Exited(1);
        }
        overlays := overlays + [c];
        typeShift := typeShift + 4;
      case NameAt(n) =>
        nmoffs := n;
      case AddFlags(f) =>
        flags := BitOr(flags, f);
      case Output(name) =>
        oname := name;
      case Template(stub) =>
        template := Some(stub);
      case Select(w) =>
        switches := switches + {w};
      case Help =>
        ExitStays(opts, i + 1);
        return Exited(0);
    }
    assert opts[..|opts|] == opts;
    r := Parsed(Settings(stubVer, reqVer, typeVal, typeMap, typeShift, overlays, nmoffs, flags,
                         oname, template, switches));
  }

  // ---------- bits

  lemma {:induction false} OrBits(a: int, b: int, k: nat)
    ensures HasBit(BitOr(a, b), k) <==> HasBit(a, k) || HasBit(b, k)
    decreases k
  {
    if -1 <= a <= 0 && -1 <= b <= 0 {
      ConstantBits(k);
    } else if k == 0 {
    } else {
      OrBits(a / 2, b / 2, k - 1);
    }
  }

  lemma {:induction false} ShiftedBits(x: int, shift: nat, k: nat)
    ensures HasBit(x * Pow2(shift), k) <==> k >= shift && HasBit(x, k - shift)
    decreases shift
  {
    if shift == 0 {
      assert x * Pow2(0) == x;
    } else {
      assert x * Pow2(shift) == 2 * (x * Pow2(shift - 1));
      if k > 0 {
        ShiftedBits(x, shift - 1, k - 1);
      }
    }
  }

  lemma {:induction false} ClearedBits(x: int, bit: nat, k: nat)
    ensures HasBit(ClearBit(x, bit), k) <==> k != bit && HasBit(x, k)
    decreases bit
  {
    if HasBit(x, bit) {
      if bit == 0 {
      } else {
        ClearedBits(x / 2, bit - 1, if k > 0 then k - 1 else 0);
        assert (x - Pow2(bit)) / 2 == x / 2 - Pow2(bit - 1) && (x - Pow2(bit)) % 2 == x % 2;
      }
    }
  }

  /** How many overlays were linked by the first `n` options. */
  function Links(opts: seq<Opt>, n: nat): nat
    requires n <= |opts|
  {
    if n == 0 then 0 else Links(opts, n - 1) + if opts[n - 1].Link? then 1 else 0
  }

  /** Option `i` is a `-t` whose value has bit `k` once it is shifted to the next overlay. */
  predicate SetsBit(opts: seq<Opt>, i: nat, k: nat)
    requires i < |opts|
  {
    opts[i].SetType? && 4 * Links(opts, i) <= k && HasBit(opts[i].kind, k - 4 * Links(opts, i))
  }

  lemma {:induction false} SameLinks(opts: seq<Opt>, front: seq<Opt>, n: nat)
    requires n <= |front| <= |opts| && front == opts[..|front|]
    ensures Links(front, n) == Links(opts, n)
  {
    if n == 0 {
    } else {
      SameLinks(opts, front, n - 1);
    }
  }

  lemma {:induction false} ShiftCounts(opts: seq<Opt>)
    requires Run(opts).Parsed?
    ensures var s := Run(opts).s; s.typeShift == 4 * |s.overlays| && |s.overlays| == Links(opts, |opts|)
  {
    if opts == [] {
    } else {
      var front := opts[..|opts| - 1];
      ShiftCounts(front);
      SameLinks(opts, front, |front|);
    }
  }

  lemma {:induction false} LinksGrow(opts: seq<Opt>, i: nat, n: nat)
    requires i <= n <= |opts|
    ensures Links(opts, i) <= Links(opts, n)
    decreases n
  {
    if i == n {
    } else {
      LinksGrow(opts, i, n - 1);
    }
  }

  /** The overlays are the contents linked, in their order, and no others. */
  lemma {:induction false} OverlaysInOrder(opts: seq<Opt>, i: nat)
    requires Run(opts).Parsed? && i < |opts| && opts[i].Link?
    ensures |Run(opts).s.overlays| == Links(opts, |opts|) > Links(opts, i)
    ensures Run(opts).s.overlays[Links(opts, i)] == opts[i].content
  {
    hide BitOr, Pow2;
    var n := |opts| - 1;
    var front := opts[..n];
    ShiftCounts(opts);
    ShiftCounts(front);
    SameLinks(opts, front, i);
    SameLinks(opts, front, n);
    LinksGrow(opts, i + 1, |opts|);
    if i == n {
    } else {
      assert front[i] == opts[i];
      OverlaysInOrder(front, i);
    }
  }

  /** On every command line, whatever its types: a bit of the map is set exactly if some
      `-t` sets it, shifted by four for every overlay linked before. A type above 15 runs
      into the nibbles of later overlays, and a negative one fills all of them. */
  lemma {:induction false} TypeMapBits(opts: seq<Opt>, k: nat)
    requires Run(opts).Parsed?
    ensures HasBit(Run(opts).s.typeMap, k) <==> exists i :: 0 <= i < |opts| && SetsBit(opts, i, k)
  {
    hide BitOr, HasBit, Pow2, Links;
    if opts == [] {
      ConstantBits(k);
    } else {
      var n := |opts| - 1;
      var front, o := opts[..n], opts[n];
      TypeMapBits(front, k);
      ShiftCounts(front);
      forall i | 0 <= i < n ensures SetsBit(front, i, k) <==> SetsBit(opts, i, k) {
        SameLinks(opts, front, i);
      }
      SameLinks(opts, front, n);
      if o.SetType? {
        var s := Run(front).s;
        OrBits(s.typeMap, o.kind * Pow2(s.typeShift), k);
        ShiftedBits(o.kind, s.typeShift, k);
        assert HasBit(Run(opts).s.typeMap, k) <==> HasBit(s.typeMap, k) || SetsBit(opts, n, k);
      }
    }
  }

  /** The flags stamped are those of all `-f` options together. */
  lemma {:induction false} FlagsCollect(opts: seq<Opt>, k: nat)
    requires Run(opts).Parsed?
    ensures HasBit(Run(opts).s.flags, k) <==>
            exists i :: 0 <= i < |opts| && opts[i].AddFlags? && HasBit(opts[i].flags, k)
  {
    if opts == [] {
      ConstantBits(k);
    } else {
      var front, o := opts[..|opts| - 1], opts[|opts| - 1];
      FlagsCollect(front, k);
      if o.AddFlags? {
        OrBits(Run(front).s.flags, o.flags, k);
      }
      assert opts == front + [o];
    }
  }

  lemma {:induction false} LastVersion(opts: seq<Opt>, i: nat)
    requires Run(opts).Parsed? && i < |opts| && opts[i].RequestVersion?
    ensures Run(opts).s.reqVer != 0
  {
    hide BitOr, Pow2;
    var n := |opts| - 1;
    if i == n {
    } else {
      assert opts[..n][i] == opts[i];
      LastVersion(opts[..n], i);
    }
  }

  /** Version and flags that a run uses: without `-V`, linking falls back to version 7. */
  function Effective(s: Settings): (r: Settings)
    ensures s.reqVer != 0 || s.overlays == [] ==> r == s
  {
    if s.reqVer == 0 && s.stubVer == 8 && s.overlays != [] then
      s.(stubVer := 7, flags := ClearBit(s.flags, ELF_FLAG))
    else s
  }

  /** Without `-V`, linking an overlay makes it version 7; nothing else changes but the flags. */
  lemma EffectiveKeeps(opts: seq<Opt>)
    requires Run(opts).Parsed?
    ensures var s, r := Run(opts).s, Effective(Run(opts).s);
            r.stubVer == (if s.overlays != [] && (forall i :: 0 <= i < |opts| ==> !opts[i].RequestVersion?) then 7
                          else s.stubVer) &&
            r.overlays == s.overlays && r.typeMap == s.typeMap && r.nmoffs == s.nmoffs && r.oname == s.oname &&
            r.template == s.template && r.switches == s.switches
  {
    hide Run, ClearBit;
    DefaultsStay(opts);
    if i :| 0 <= i < |opts| && opts[i].RequestVersion? {
      LastVersion(opts, i);
    }
  }

  /** Without `-V`, linking an overlay takes the ELF flag away. */
  lemma EffectiveFlags(s: Settings, k: nat)
    ensures HasBit(Effective(s).flags, k) <==>
            HasBit(s.flags, k) && !(k == ELF_FLAG && s.reqVer == 0 && s.stubVer == 8 && s.overlays != [])
  {
    ClearedBits(s.flags, ELF_FLAG, k);
  }

  // ---------- nibbles

  /** Nibbles to a number, lowest first. */
  function Pack(ns: seq<int>): int { if ns == [] then 0 else ns[0] + 16 * Pack(ns[1..]) }

  predicate IsNibble(x: int) { 0 <= x < 16 }

  predicate AllNibbles(ns: seq<int>) { forall i :: 0 <= i < |ns| ==> IsNibble(ns[i]) }

  lemma NibbleTimes(n: nat, x: int)
    ensures Pow2(n + 4) * x == 16 * (Pow2(n) * x)
  {
    hide Pow2;
    Pow2Nibble(n);
  }

  lemma {:induction false} PackBound(ns: seq<int>)
    requires AllNibbles(ns)
    ensures 0 <= Pack(ns) < Pow2(4 * |ns|)
  {
    if ns == [] {
    } else {
      PackBound(ns[1..]);
      Pow2Nibble(4 * |ns| - 4);
    }
  }

  lemma {:induction false} PackSnoc(ns: seq<int>, x: int)
    ensures Pack(ns + [x]) == Pack(ns) + Pow2(4 * |ns|) * x
    ensures AllNibbles(ns) ==> 0 <= Pack(ns) < Pow2(4 * |ns|)
  {
    hide AllNibbles, Pow2;
    if ns == [] {
      Pow2Zero();
      assert [x][1..] == [] && Pack([x]) == x && [] + [x] == [x];
    } else {
      PackSnoc(ns[1..], x);
      NibbleTimes(4 * |ns| - 4, x);
      assert (ns + [x])[1..] == ns[1..] + [x];
    }
    if AllNibbles(ns) {
      PackBound(ns);
    }
  }

  /** Unpacking gives the nibbles back, unless the highest one is zero and is lost. */
  lemma {:induction false} NibblesOfPack(ns: seq<int>)
    requires AllNibbles(ns) && (ns != [] ==> ns[|ns| - 1] != 0)
    ensures Pack(ns) >= 0 && Nibbles(Pack(ns)) == ns && (ns != [] ==> Pack(ns) > 0)
  {
    if ns == [] {
    } else {
      var r := Pack(ns[1..]);
      NibblesOfPack(ns[1..]);
      assert (ns[0] + 16 * r) % 16 == ns[0] && (ns[0] + 16 * r) / 16 == r;
      assert ns == [ns[0]] + ns[1..];
    }
  }

  /** Different nibbles of one length pack to different numbers. */
  lemma {:induction false} PackInjective(ns: seq<int>, ms: seq<int>)
    requires AllNibbles(ns) && AllNibbles(ms) && |ns| == |ms| && Pack(ns) == Pack(ms)
    ensures ns == ms
  {
    if ns == [] {
    } else {
      var r, q := Pack(ns[1..]), Pack(ms[1..]);
      assert (ns[0] + 16 * r) % 16 == ns[0] && (ms[0] + 16 * q) % 16 == ms[0];
      PackInjective(ns[1..], ms[1..]);
      assert ns == [ns[0]] + ns[1..] && ms == [ms[0]] + ms[1..];
    }
  }

  lemma OrDouble(a: int, b: int, x: nat)
    requires x < 2
    ensures BitOr(2 * a + x, 2 * b) == 2 * BitOr(a, b) + x
  {
    assert (2 * a + x) / 2 == a && (2 * a + x) % 2 == x && 2 * b / 2 == b && 2 * b % 2 == 0;
    assert BitOr(0, 0) == 0 && BitOr(-1, 0) == -1;
  }

  lemma DoubleProduct(h: nat, x: int)
    ensures 2 * h * x == 2 * (h * x)
  {
  }

  /** Or-ing `v` in above the lowest `k` bits. */
  lemma {:induction false} OrShifted(lo: nat, p: int, v: int, k: nat)
    requires lo < Pow2(k)
    ensures BitOr(lo + Pow2(k) * p, Pow2(k) * v) == lo + Pow2(k) * BitOr(p, v)
    decreases k
  {
    hide BitOr;
    if k == 0 {
    } else {
      var h := Pow2(k - 1);
      DoubleProduct(h, p);
      DoubleProduct(h, v);
      DoubleProduct(h, BitOr(p, v));
      OrShifted(lo / 2, p, v, k - 1);
      OrDouble(lo / 2 + h * p, h * v, lo % 2);
    }
  }

  lemma {:induction false} OrNothing(a: int, b: int)
    ensures BitOr(a, b) == 0 <==> a == 0 && b == 0
    decreases Magnitude(a) + Magnitude(b)
  {
    if -1 <= a <= 0 && -1 <= b <= 0 {
    } else {
      OrNothing(a / 2, b / 2);
    }
  }

  /** The result has no more bits than its operands, and no fewer. */
  lemma {:induction false} OrRange(a: int, b: int, k: nat)
    ensures 0 <= BitOr(a, b) < Pow2(k) <==> 0 <= a < Pow2(k) && 0 <= b < Pow2(k)
    decreases k
  {
    if k == 0 {
      OrNothing(a, b);
    } else if -1 <= a <= 0 && -1 <= b <= 0 {
    } else {
      OrRange(a / 2, b / 2, k - 1);
    }
  }

  lemma {:induction false} OrZero(a: int)
    ensures BitOr(0, a) == a
    decreases Magnitude(a)
  {
    if -1 <= a <= 0 {
    } else {
      OrZero(a / 2);
    }
  }

  /** What a command line asks for: per `-l`, all `-t` values since the `-l` before it, and
      those after the last one. */
  datatype Groups = Groups(done: seq<int>, pending: int)

  function GroupStep(g: Groups, o: Opt): Groups {
    match o
    case SetType(t) => g.(pending := BitOr(g.pending, t))
    case Link(_) => Groups(g.done + [g.pending], 0)
    case _ => g
  }

  function GroupsOf(opts: seq<Opt>): Groups {
    if opts == [] then Groups([], 0)
    else GroupStep(GroupsOf(opts[..|opts| - 1]), opts[|opts| - 1])
  }

  predicate TypeFits(o: Opt) { o.SetType? ==> IsNibble(o.kind) }

  predicate TypesFit(opts: seq<Opt>) { forall i :: 0 <= i < |opts| ==> TypeFits(opts[i]) }

  /** Nibble i of the map is group i, the nibble above the last overlay is the pending
      group, and nothing is above it. */
  predicate MapHolds(s: Settings, g: Groups) {
    AllNibbles(g.done + [g.pending]) && s.typeMap == Pack(g.done + [g.pending])
  }

  lemma {:induction false} GroupCounts(opts: seq<Opt>)
    requires Run(opts).Parsed?
    ensures |GroupsOf(opts).done| == |Run(opts).s.overlays|
  {
    if opts == [] {
    } else {
      GroupCounts(opts[..|opts| - 1]);
    }
  }

  lemma OrIntoPack(done: seq<int>, p: int, t: int)
    requires AllNibbles(done)
    ensures BitOr(Pack(done + [p]), t * Pow2(4 * |done|)) == Pack(done + [BitOr(p, t)])
  {
    hide BitOr, Pack, Pow2;
    PackSnoc(done, p);
    PackSnoc(done, BitOr(p, t));
    OrShifted(Pack(done), p, t, 4 * |done|);
    assert t * Pow2(4 * |done|) == Pow2(4 * |done|) * t;
  }

  lemma LastNibble(done: seq<int>, p: int)
    ensures AllNibbles(done + [p]) <==> AllNibbles(done) && IsNibble(p)
  {
    assert (done + [p])[|done|] == p;
    assert forall i :: 0 <= i < |done| ==> (done + [p])[i] == done[i];
  }

  /** One option keeps the map packed if and only if it is no type of more than a nibble. */
  lemma MapStep(s: Settings, g: Groups, o: Opt)
    requires MapHolds(s, g) && s.typeShift == 4 * |g.done| && Apply(s, o).Parsed?
    ensures MapHolds(Apply(s, o).s, GroupStep(g, o)) <==> TypeFits(o)
  {
    hide BitOr, Pack, Pow2;
    LastNibble(g.done, g.pending);
    match o
    case SetType(t) =>
      Pow2Sixteen();
      OrIntoPack(g.done, g.pending, t);
      OrRange(g.pending, t, 4);
      LastNibble(g.done, BitOr(g.pending, t));
    case Link(_) =>
      PackSnoc(g.done + [g.pending], 0);
      LastNibble(g.done + [g.pending], 0);
    case _ =>
  }

  /** A type of more than a nibble stays in its group. */
  lemma NibblesBefore(g: Groups, o: Opt)
    requires AllNibbles(GroupStep(g, o).done + [GroupStep(g, o).pending])
    ensures AllNibbles(g.done + [g.pending]) && TypeFits(o)
  {
    hide BitOr, Pow2;
    Pow2Sixteen();
    LastNibble(g.done, g.pending);
    LastNibble(GroupStep(g, o).done, GroupStep(g, o).pending);
    if o.SetType? {
      OrRange(g.pending, o.kind, 4);
    }
  }

  lemma {:induction false} GroupsFit(opts: seq<Opt>)
    ensures AllNibbles(GroupsOf(opts).done + [GroupsOf(opts).pending]) ==> TypesFit(opts)
  {
    hide BitOr, AllNibbles;
    if opts == [] {
    } else {
      var front, o := opts[..|opts| - 1], opts[|opts| - 1];
      GroupsFit(front);
      if AllNibbles(GroupsOf(opts).done + [GroupsOf(opts).pending]) {
        NibblesBefore(GroupsOf(front), o);
      }
      assert opts == front + [o];
    }
  }

  /** After every command line: the map is packed as asked exactly if every type is below
      16; the shift is always four times the number of overlays. */
  lemma {:induction false} TypeMapIsPacked(opts: seq<Opt>)
    requires Run(opts).Parsed?
    ensures var s, g := Run(opts).s, GroupsOf(opts);
            s.typeShift == 4 * |s.overlays| && |s.overlays| == |g.done| && (MapHolds(s, g) <==> TypesFit(opts))
  {
    hide Pack, Apply, GroupStep;
    if opts == [] {
      PackSnoc([], 0);
      assert [] + [0] == [0];
    } else {
      var before, o := opts[..|opts| - 1], opts[|opts| - 1];
      TypeMapIsPacked(before);
      ShiftCounts(opts);
      GroupCounts(opts);
      GroupsFit(opts);
      assert opts == before + [o];
      if TypesFit(opts) {
        MapStep(Run(before).s, GroupsOf(before), o);
      }
    }
  }

  // ---------- types of overlays

  function TypeNow(opts: seq<Opt>): int {
    if opts == [] then 0
    else if opts[|opts| - 1].SetType? then opts[|opts| - 1].kind
    else TypeNow(opts[..|opts| - 1])
  }

  /** The `-t` value in force at each `-l`. */
  function InForce(opts: seq<Opt>): seq<int> {
    if opts == [] then []
    else
      var front := opts[..|opts| - 1];
      if opts[|opts| - 1].Link? then InForce(front) + [TypeNow(front)] else InForce(front)
  }

  lemma {:induction false} InForceFits(opts: seq<Opt>)
    requires Run(opts).Parsed? && TypesFit(opts)
    ensures AllNibbles(InForce(opts)) && |InForce(opts)| == |Run(opts).s.overlays|
    ensures TypeNow(opts) == Run(opts).s.typeVal && IsNibble(TypeNow(opts))
    ensures forall i :: 0 <= i < |InForce(opts)| ==> InForce(opts)[i] != 0
  {
    if opts == [] {
    } else {
      InForceFits(opts[..|opts| - 1]);
    }
  }

  lemma SnocGroups(opts: seq<Opt>, o: Opt)
    ensures GroupsOf(opts + [o]) == GroupStep(GroupsOf(opts), o)
    ensures TypesFit(opts + [o]) <==> TypesFit(opts) && TypeFits(o)
  {
    var all := opts + [o];
    assert all[..|opts|] == opts && all[|opts|] == o;
    assert forall i :: 0 <= i < |opts| ==> all[i] == opts[i];
  }

  /** Each overlay is in the map under the type in force when it was linked, and nothing
      else is, exactly if the `-t` values since the `-l` before come to just that type, for
      every `-l`, and none follows the last one. */
  lemma TypesInForce(opts: seq<Opt>)
    requires Run(opts).Parsed? && TypesFit(opts)
    ensures Run(opts).s.typeMap == Pack(InForce(opts)) <==> GroupsOf(opts) == Groups(InForce(opts), 0)
    ensures Run(opts).s.typeMap == Pack(InForce(opts)) ==>
              Run(opts).s.typeMap >= 0 && Nibbles(Run(opts).s.typeMap) == InForce(opts)
  {
    hide Pack, Run;
    var g, ts := GroupsOf(opts), InForce(opts);
    TypeMapIsPacked(opts);
    InForceFits(opts);
    PackSnoc(ts, 0);
    LastNibble(ts, 0);
    NibblesOfPack(ts);
    if Pack(g.done + [g.pending]) == Pack(ts) {
      PackInjective(g.done + [g.pending], ts + [0]);
      assert g.done == (g.done + [g.pending])[..|g.done|] && ts == (ts + [0])[..|ts|];
      assert g.pending == (g.done + [g.pending])[|g.done|] && (ts + [0])[|ts|] == 0;
    }
  }

  /** A second `-l` under one `-t` leaves a hole in the map, whatever came before. */
  lemma LinkTwiceLeavesHole(opts: seq<Opt>, a: seq<byte>, b: seq<byte>)
    requires Run(opts).Parsed? && TypesFit(opts) && Run(opts).s.typeVal != 0
    ensures var all := opts + [Link(a)] + [Link(b)];
            Run(all).Parsed? && |Run(all).s.overlays| == |Run(opts).s.overlays| + 2 &&
            Run(all).s.typeMap == Run(opts).s.typeMap != Pack(InForce(all))
  {
    hide Run, Pack, GroupsOf, BitOr, Pow2, TypesFit;
    var one := opts + [Link(a)];
    var all := one + [Link(b)];
    SnocRun(opts, Link(a));
    SnocRun(one, Link(b));
    SnocGroups(opts, Link(a));
    SnocGroups(one, Link(b));
    TypesInForce(all);
    InForceFits(all);
    assert GroupsOf(all).done[|GroupsOf(all).done| - 1] == 0;
  }

  /** A command line of `-t`, `-l` pairs. */
  function Pairs(kinds: seq<int>, contents: seq<seq<byte>>): seq<Opt>
    requires |kinds| == |contents|
  {
    if kinds == [] then []
    else
      var n := |kinds| - 1;
      Pairs(kinds[..n], contents[..n]) + [SetType(kinds[n]), Link(contents[n])]
  }

  predicate GoodKinds(kinds: seq<int>) { forall i :: 0 <= i < |kinds| ==> 0 < kinds[i] < 16 }

  lemma PairRun(opts: seq<Opt>, t: int, c: seq<byte>)
    ensures var all := opts + [SetType(t), Link(c)];
            (Run(all).Parsed? <==> Run(opts).Parsed? && t != 0) &&
            (TypesFit(all) <==> TypesFit(opts) && IsNibble(t)) &&
            (Run(all).Parsed? ==>
               Run(all).s.overlays == Run(opts).s.overlays + [c] && Run(all).s.reqVer == Run(opts).s.reqVer &&
               (GroupsOf(opts).pending == 0 ==> GroupsOf(all) == Groups(GroupsOf(opts).done + [t], 0)))
  {
    hide Run, GroupsOf, TypesFit, BitOr, Pow2;
    var one := opts + [SetType(t)];
    assert one + [Link(c)] == opts + [SetType(t), Link(c)];
    SnocRun(opts, SetType(t));
    SnocRun(one, Link(c));
    SnocGroups(opts, SetType(t));
    SnocGroups(one, Link(c));
    OrZero(t);
  }

  lemma PairKeeps(opts: seq<Opt>, t: int, c: seq<byte>)
    ensures var all := opts + [SetType(t), Link(c)];
            Run(all).Parsed? ==>
              Run(opts).Parsed? &&
              var s, u := Run(opts).s, Run(all).s;
              u.stubVer == s.stubVer && u.flags == s.flags && u.nmoffs == s.nmoffs
  {
    hide Run, BitOr, Pow2;
    var one := opts + [SetType(t)];
    assert one + [Link(c)] == opts + [SetType(t), Link(c)];
    SnocRun(opts, SetType(t));
    SnocRun(one, Link(c));
  }

  lemma {:induction false} PairsRun(kinds: seq<int>, contents: seq<seq<byte>>)
    requires |kinds| == |contents|
    ensures var opts := Pairs(kinds, contents);
            (Run(opts).Parsed? <==> 0 !in kinds) &&
            (Run(opts).Parsed? ==>
               GroupsOf(opts) == Groups(kinds, 0) && Run(opts).s.overlays == contents && Run(opts).s.reqVer == 0)
    ensures TypesFit(Pairs(kinds, contents)) <==> AllNibbles(kinds)
  {
    if kinds == [] {
    } else {
      var n := |kinds| - 1;
      var front := Pairs(kinds[..n], contents[..n]);
      PairsRun(kinds[..n], contents[..n]);
      PairRun(front, kinds[n], contents[n]);
      assert kinds[..n] + [kinds[n]] == kinds && contents[..n] + [contents[n]] == contents;
      LastNibble(kinds[..n], kinds[n]);
    }
  }

  /** Pairs behind other options that link nothing. */
  lemma PairsAfter(opts: seq<Opt>, kinds: seq<int>, contents: seq<seq<byte>>)
    requires |kinds| == |contents| && GoodKinds(kinds) && Run(opts).Parsed? && TypesFit(opts)
    requires GroupsOf(opts) == Groups([], 0)
    ensures var all, s := opts + Pairs(kinds, contents), Run(opts).s;
            Run(all).Parsed? && TypesFit(all) && GroupsOf(all) == Groups(kinds, 0) &&
            var t := Run(all).s;
            t.overlays == s.overlays + contents && t.stubVer == s.stubVer && t.reqVer == s.reqVer &&
            t.flags == s.flags && t.nmoffs == s.nmoffs
  {
    hide Run, GroupsOf, TypesFit, BitOr, Pow2;
    if kinds == [] {
      assert opts + [] == opts;
    } else {
      var n := |kinds| - 1;
      var front := opts + Pairs(kinds[..n], contents[..n]);
      PairsAfter(opts, kinds[..n], contents[..n]);
      PairRun(front, kinds[n], contents[n]);
      PairKeeps(front, kinds[n], contents[n]);
      assert front + [SetType(kinds[n]), Link(contents[n])] == opts + Pairs(kinds, contents);
      assert kinds[..n] + [kinds[n]] == kinds && contents[..n] + [contents[n]] == contents;
    }
  }

  /** Command lines of `-V 8`, `-f` and pairs. */
  function LinkLine(flags: int, kinds: seq<int>, contents: seq<seq<byte>>): seq<Opt>
    requires |kinds| == |contents|
  {
    [RequestVersion(8), AddFlags(flags)] + Pairs(kinds, contents)
  }

  lemma FlagsLine(flags: int)
    ensures var opts := [RequestVersion(8), AddFlags(flags)];
            Run(opts).Parsed? && TypesFit(opts) && GroupsOf(opts) == Groups([], 0) &&
            var s := Run(opts).s;
            s.overlays == [] && s.stubVer == 8 && s.reqVer == 8 && s.flags == flags && s.nmoffs == 0
  {
    hide BitOr, Pow2;
    var v, f := RequestVersion(8), AddFlags(flags);
    OrZero(flags);
    SnocRun([], v);
    SnocRun([v], f);
    SnocGroups([], v);
    SnocGroups([v], f);
    assert [v] + [f] == [v, f] && [] + [v] == [v];
  }

  /** What such a command line sets. */
  lemma LinkLineRuns(flags: int, kinds: seq<int>, contents: seq<seq<byte>>)
    requires |kinds| == |contents| && GoodKinds(kinds)
    ensures var opts := LinkLine(flags, kinds, contents);
            Run(opts).Parsed? && TypesFit(opts) && GroupsOf(opts) == Groups(kinds, 0) &&
            var s := Run(opts).s;
            s.overlays == contents && s.stubVer == 8 && s.reqVer == 8 && s.flags == flags && s.nmoffs == 0 &&
            s.typeMap == Pack(kinds)
  {
    hide Run, GroupsOf, TypesFit, Pairs, Pack, BitOr, Pow2;
    FlagsLine(flags);
    PairsAfter([RequestVersion(8), AddFlags(flags)], kinds, contents);
    TypeMapIsPacked(LinkLine(flags, kinds, contents));
    PackSnoc(kinds, 0);
    assert [] + contents == contents;
  }

  /** On `-t`, `-l` pairs the program goes on exactly if no type is zero. The map then holds
      exactly the types in order if and only if all of them are between 1 and 15, and
      looking a type up finds the first overlay that was linked with it. */
  lemma PairsPack(kinds: seq<int>, contents: seq<seq<byte>>)
    requires |kinds| == |contents|
    ensures Run(Pairs(kinds, contents)).Parsed? <==> 0 !in kinds
    ensures Run(Pairs(kinds, contents)).Parsed? ==>
              var s := Run(Pairs(kinds, contents)).s;
              s.overlays == contents && s.typeShift == 4 * |contents| &&
              (s.typeMap >= 0 && Nibbles(s.typeMap) == kinds <==> GoodKinds(kinds)) &&
              (GoodKinds(kinds) ==>
                 s.typeMap == Pack(kinds) &&
                 forall i :: 0 <= i < |kinds| && (forall j :: 0 <= j < i ==> kinds[j] != kinds[i]) ==>
                   FirstIndex(kinds[i], Nibbles(s.typeMap)) == i)
  {
    hide Pack, Run, GroupsOf, Pairs;
    var opts := Pairs(kinds, contents);
    PairsRun(kinds, contents);
    if Run(opts).Parsed? {
      TypeMapIsPacked(opts);
      if GoodKinds(kinds) {
        PackSnoc(kinds, 0);
        NibblesOfPack(kinds);
        forall i | 0 <= i < |kinds| && forall j :: 0 <= j < i ==> kinds[j] != kinds[i]
          ensures FirstIndex(kinds[i], Nibbles(Run(opts).s.typeMap)) == i
        {
          FirstIndexIs(kinds[i], kinds, i);
        }
      }
    }
  }
}
