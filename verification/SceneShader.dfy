/** Drawing a scene: the layer order of Scene.ts and the fragment shader generated by
  * StreamHelpers.ts, as a statement tree with an evaluator.  Coordinates and colours are reals. */
module SceneShader {
  import opened Options

  datatype Vec = Vec(x: real, y: real)

  datatype Rgb = Rgb(r: real, g: real, b: real)

  datatype Rgba = Rgba(rgb: Rgb, alpha: real)

  // A video or image; `source` names its texture.
  datatype Capture = Capture(layer: real, pos: Vec, res: Vec, ready: bool, fallback: Rgb, source: nat)

  // What one run of the shader sees: uniforms of the captures, the texture unit and one pixel.
  datatype Frame = Frame(captures: seq<Capture>, scene: Vec, background: Rgb, texture: (nat, Vec) -> Rgba, pixel: Vec)

  // ----- the generated program -----

  datatype Stmt =
    | IfInside(i: nat, body: seq<Stmt>)                      // pixel within capture i
    | IfVideo(i: nat, yes: seq<Stmt>, no: seq<Stmt>)         // u_hasVideo > 0.5
    | IfOpaque(i: nat, body: seq<Stmt>)                      // texColor.a > 0.01
    | EmitTexture(i: nat)                                    // gl_FragColor = texColor; return
    | EmitFallback(i: nat)                                   // gl_FragColor = vec4(u_fallback, 1.0); return
    | EmitBackground                                         // gl_FragColor = vec4(u_bgColor, 1.0)

  // Division by zero has no defined value; nothing below depends on it.
  function Div(a: real, b: real): real { if b == 0.0 then 0.0 else a / b }

  function Over(v: Vec, scene: Vec): Vec { Vec(Div(v.x, scene.x), Div(v.y, scene.y)) }

  function Plus(v: Vec, w: Vec): Vec { Vec(v.x + w.x, v.y + w.y) }

  function Minus(v: Vec, w: Vec): Vec { Vec(v.x - w.x, v.y - w.y) }

  predicate Covers(f: Frame, c: Capture)
  {
    var low, high := Over(c.pos, f.scene), Over(Plus(c.pos, c.res), f.scene);
    low.x <= f.pixel.x < high.x && low.y <= f.pixel.y < high.y
  }

  function Texel(f: Frame, c: Capture): Rgba
  {
    var low, high := Over(c.pos, f.scene), Over(Plus(c.pos, c.res), f.scene);
    f.texture(c.source, Over(Minus(f.pixel, low), Minus(high, low)))
  }

  // The colour with which the statements return, or None when control falls off their end.
  function Exec(p: seq<Stmt>, f: Frame): Option<Rgba>
  {
    if p == [] then None
    else match ExecOne(p[0], f)
      case Some(c) => Some(c)
      case None => Exec(p[1..], f)
  }

  function ExecOne(s: Stmt, f: Frame): Option<Rgba>
  {
    match s
    case IfInside(i, body) => if i < |f.captures| && Covers(f, f.captures[i]) then Exec(body, f) else None
    case IfVideo(i, yes, no) => if i < |f.captures| && f.captures[i].ready then Exec(yes, f) else Exec(no, f)
    case IfOpaque(i, body) => if i < |f.captures| && Texel(f, f.captures[i]).alpha > 0.01 then Exec(body, f) else None
    case EmitTexture(i) => if i < |f.captures| then Some(Texel(f, f.captures[i])) else None
    case EmitFallback(i) => if i < |f.captures| then Some(Rgba(f.captures[i].fallback, 1.0)) else None
    case EmitBackground => Some(Rgba(f.background, 1.0))
  }

  function Block(i: nat): Stmt
  {
    IfInside(i, [IfVideo(i, [IfOpaque(i, [EmitTexture(i)])], [EmitFallback(i)])])
  }

  // ----- painting back to front -----

  // What a capture puts on the pixel, if anything.
  function Ink(f: Frame, c: Capture): Option<Rgba>
  {
    if !Covers(f, c) then None
    else if !c.ready then Some(Rgba(c.fallback, 1.0))
    else if Texel(f, c).alpha > 0.01 then Some(Texel(f, c))
    else None
  }

  function OrElse(o: Option<Rgba>, d: Rgba): Rgba { if o.Some? then o.value else d }

  // The captures painted one after the other over a canvas.
  function Painted(f: Frame, canvas: Rgba, cs: seq<Capture>): Rgba
    decreases |cs|
  {
    if cs == [] then canvas else Painted(f, OrElse(Ink(f, cs[0]), canvas), cs[1..])
  }

  // The program checks the captures front to back and returns early; for every frame it yields
  // what painting them back to front over the background yields.
  method GenerateFragmentShader(n: nat) returns (program: seq<Stmt>)
    ensures forall f: Frame | |f.captures| == n ::
              Exec(program, f) == Some(Painted(f, Rgba(f.background, 1.0), f.captures))
  {
    program := [];
    var i := n;
    while i > 0
      invariant 0 <= i <= n && forall f: Frame | |f.captures| == n :: PaintsFrom(program, f, i)
    {
      i := i - 1;
      forall f: Frame | |f.captures| == n ensures PaintsFrom(program + [Block(i)], f, i) {
        BlockAdded(program, f, i);
      }
      program := program + [Block(i)];
    }
    forall f: Frame | |f.captures| == n
      ensures Exec(program + [EmitBackground], f) == Some(Painted(f, Rgba(f.background, 1.0), f.captures))
    {
      assert PaintsFrom(program, f, 0);
      ExecAppend(program, EmitBackground, f);
      assert f.captures[0..] == f.captures;
    }
    program := program + [EmitBackground];
  }

  // Falling back to a canvas, the program paints the captures from the i-th on over it.
  ghost predicate PaintsFrom(p: seq<Stmt>, f: Frame, i: nat)
  {
    i <= |f.captures| && forall canvas :: OrElse(Exec(p, f), canvas) == Painted(f, canvas, f.captures[i..])
  }

  lemma {:induction false} BlockAdded(p: seq<Stmt>, f: Frame, i: nat)
    requires i < |f.captures| && PaintsFrom(p, f, i + 1)
    ensures PaintsFrom(p + [Block(i)], f, i)
  {
    ExecAppend(p, Block(i), f);
    ExecBlock(f, i);
    assert f.captures[i..][1..] == f.captures[i + 1..];
  }

  lemma {:induction false} ExecAppend(p: seq<Stmt>, s: Stmt, f: Frame)
    ensures Exec(p + [s], f) == if Exec(p, f).Some? then Exec(p, f) else ExecOne(s, f)
  {
    if p == [] {
      assert (p + [s])[1..] == [];
    } else {
      assert (p + [s])[1..] == p[1..] + [s];
      ExecAppend(p[1..], s, f);
    }
  }

  lemma {:induction false} ExecSingle(s: Stmt, f: Frame)
    ensures Exec([s], f) == ExecOne(s, f)
  {
    ExecAppend([], s, f);
    assert [] + [s] == [s];
  }

  lemma {:induction false} ExecBlock(f: Frame, i: nat)
    requires i < |f.captures|
    ensures ExecOne(Block(i), f) == Ink(f, f.captures[i])
  {
    ExecSingle(IfVideo(i, [IfOpaque(i, [EmitTexture(i)])], [EmitFallback(i)]), f);
    ExecSingle(IfOpaque(i, [EmitTexture(i)]), f);
    ExecSingle(EmitTexture(i), f);
    ExecSingle(EmitFallback(i), f);
  }

  // ----- the layer order -----

  predicate Layered(s: seq<Capture>)
  {
    forall i, j | 0 <= i < j < |s| :: s[i].layer <= s[j].layer
  }

  // Behind everything that is in front of c, in front of all else.
  function Placed(s: seq<Capture>, c: Capture): (r: seq<Capture>)
    ensures multiset(r) == multiset(s) + multiset{c}
  {
    if s == [] then [c]
    else
      var n := |s| - 1;
      assert s == s[..n] + [s[n]];
      if s[n].layer <= c.layer then s + [c] else Placed(s[..n], c) + [s[n]]
  }

  // The stable sort by layer.
  function ByLayer(cs: seq<Capture>): (r: seq<Capture>)
    ensures multiset(r) == multiset(cs)
  {
    if cs == [] then []
    else
      assert cs == cs[..|cs| - 1] + [cs[|cs| - 1]];
      Placed(ByLayer(cs[..|cs| - 1]), cs[|cs| - 1])
  }

  lemma {:induction false} PlacedBound(s: seq<Capture>, c: Capture, top: real)
    requires c.layer <= top && forall i | 0 <= i < |s| :: s[i].layer <= top
    ensures forall i | 0 <= i < |Placed(s, c)| :: Placed(s, c)[i].layer <= top
  {
    if s != [] && !(s[|s| - 1].layer <= c.layer) {
      PlacedBound(s[..|s| - 1], c, top);
    }
  }

  lemma {:induction false} PlacedLayered(s: seq<Capture>, c: Capture)
    requires Layered(s)
    ensures Layered(Placed(s, c))
  {
    if s != [] && !(s[|s| - 1].layer <= c.layer) {
      PlacedLayered(s[..|s| - 1], c);
      PlacedBound(s[..|s| - 1], c, s[|s| - 1].layer);
    }
  }

  lemma {:induction false} ByLayerLayered(cs: seq<Capture>)
    ensures Layered(ByLayer(cs))
  {
    if cs != [] {
      ByLayerLayered(cs[..|cs| - 1]);
      PlacedLayered(ByLayer(cs[..|cs| - 1]), cs[|cs| - 1]);
    }
  }

  // The captures of one layer, in order.
  function OfLayer(s: seq<Capture>, layer: real): seq<Capture>
  {
    if s == [] then []
    else OfLayer(s[..|s| - 1], layer) + if s[|s| - 1].layer == layer then [s[|s| - 1]] else []
  }

  lemma {:induction false} OfLayerAppend(s: seq<Capture>, c: Capture, layer: real)
    ensures OfLayer(s + [c], layer) == OfLayer(s, layer) + if c.layer == layer then [c] else []
  {
    assert (s + [c])[..|s|] == s;
  }

  lemma {:induction false} OfLayerPlaced(s: seq<Capture>, c: Capture, layer: real)
    requires Layered(s)
    ensures OfLayer(Placed(s, c), layer) == OfLayer(s, layer) + if c.layer == layer then [c] else []
  {
    OfLayerAppend(s, c, layer);
    if s == [] {
      assert s + [c] == [c];
    } else {
      var n := |s| - 1;
      if s[n].layer > c.layer {
        OfLayerPlaced(s[..n], c, layer);
        OfLayerAppend(Placed(s[..n], c), s[n], layer);
        NotBoth(OfLayer(s[..n], layer), c, s[n], layer);
      }
    }
  }

  // Of two captures of different layers, one at most is of this layer.
  lemma {:induction false} NotBoth(s: seq<Capture>, c: Capture, d: Capture, layer: real)
    requires c.layer != d.layer
    ensures var x, y := if c.layer == layer then [c] else [], if d.layer == layer then [d] else [];
            s + x + y == s + y + x
  {
  }

  // Sorted by layer, and each layer keeps the order of the list.
  lemma {:induction false} ByLayerStable(cs: seq<Capture>, layer: real)
    ensures Layered(ByLayer(cs)) && OfLayer(ByLayer(cs), layer) == OfLayer(cs, layer)
  {
    ByLayerLayered(cs);
    if cs != [] {
      ByLayerStable(cs[..|cs| - 1], layer);
      OfLayerPlaced(ByLayer(cs[..|cs| - 1]), cs[|cs| - 1], layer);
    }
  }

  // ----- the topmost capture -----

  // The last one of a sequence with ink on the pixel.
  function Last(f: Frame, s: seq<Capture>): Option<Capture>
  {
    if s == [] then None
    else if Ink(f, s[|s| - 1]).Some? then Some(s[|s| - 1])
    else Last(f, s[..|s| - 1])
  }

  lemma {:induction false} PaintedAppend(f: Frame, canvas: Rgba, s: seq<Capture>, c: Capture)
    ensures Painted(f, canvas, s + [c]) == OrElse(Ink(f, c), Painted(f, canvas, s))
    decreases |s|
  {
    if s == [] {
      assert (s + [c])[1..] == [];
    } else {
      assert (s + [c])[1..] == s[1..] + [c];
      PaintedAppend(f, OrElse(Ink(f, s[0]), canvas), s[1..], c);
    }
  }

  lemma {:induction false} PaintedLast(f: Frame, canvas: Rgba, s: seq<Capture>)
    ensures match Last(f, s)
            case None => Painted(f, canvas, s) == canvas
            case Some(c) => c in s && Ink(f, c) == Some(Painted(f, canvas, s))
  {
    if s != [] {
      var n := |s| - 1;
      assert s == s[..n] + [s[n]];
      PaintedAppend(f, canvas, s[..n], s[n]);
      PaintedLast(f, canvas, s[..n]);
    }
  }

  lemma {:induction false} LastPlaced(f: Frame, s: seq<Capture>, c: Capture)
    requires Layered(s)
    ensures Last(f, Placed(s, c)) ==
            if Ink(f, c).Some? && (Last(f, s).None? || Last(f, s).value.layer <= c.layer) then Some(c) else Last(f, s)
  {
    LastLayer(f, s);
    var r := Placed(s, c);
    assert r[..|r| - 1] == if s == [] || s[|s| - 1].layer <= c.layer then s else Placed(s[..|s| - 1], c);
    if s != [] && !(s[|s| - 1].layer <= c.layer) {
      LastPlaced(f, s[..|s| - 1], c);
    }
  }

  lemma {:induction false} LastLayer(f: Frame, s: seq<Capture>)
    requires Layered(s)
    ensures Last(f, s).Some? ==> s != [] && Last(f, s).value.layer <= s[|s| - 1].layer
  {
    if s != [] {
      LastLayer(f, s[..|s| - 1]);
    }
  }

  // Capture j has ink and nothing with ink is above it: a higher layer, or the same layer later.
  predicate Topmost(f: Frame, cs: seq<Capture>, j: nat)
  {
    && j < |cs| && Ink(f, cs[j]).Some?
    && forall k | 0 <= k < |cs| && Ink(f, cs[k]).Some? ::
         cs[k].layer < cs[j].layer || (cs[k].layer == cs[j].layer && k <= j)
  }

  lemma {:induction false} LastIsTopmost(f: Frame, cs: seq<Capture>)
    ensures LastTops(f, cs, Last(f, ByLayer(cs)))
  {
    if cs != [] {
      var n := |cs| - 1;
      var was := cs[..n];
      LastIsTopmost(f, was);
      ByLayerLayered(was);
      LastPlaced(f, ByLayer(was), cs[n]);
      TopsAppend(f, was, cs[n], Last(f, ByLayer(was)));
      assert cs == was + [cs[n]];
    }
  }

  // top is the topmost capture of cs, if one has ink.
  predicate LastTops(f: Frame, cs: seq<Capture>, top: Option<Capture>)
  {
    match top
    case None => forall k | 0 <= k < |cs| :: Ink(f, cs[k]).None?
    case Some(c) => exists j: nat | j < |cs| :: Topmost(f, cs, j) && cs[j] == c
  }

  lemma {:induction false} TopsAppend(f: Frame, cs: seq<Capture>, c: Capture, top: Option<Capture>)
    requires LastTops(f, cs, top)
    ensures LastTops(f, cs + [c], if Ink(f, c).Some? && (top.None? || top.value.layer <= c.layer) then Some(c) else top)
  {
    match top
    case None =>
      if Ink(f, c).Some? { TopmostFirst(f, cs, c); }
    case Some(t) =>
      var j: nat :| j < |cs| && Topmost(f, cs, j) && cs[j] == t;
      TopmostAppend(f, cs, c, j);
  }

  lemma {:induction false} TopmostAppend(f: Frame, cs: seq<Capture>, c: Capture, j: nat)
    requires Topmost(f, cs, j)
    ensures Topmost(f, cs + [c], if Ink(f, c).Some? && cs[j].layer <= c.layer then |cs| else j)
  {
  }

  lemma {:induction false} TopmostFirst(f: Frame, cs: seq<Capture>, c: Capture)
    requires (forall k | 0 <= k < |cs| :: Ink(f, cs[k]).None?) && Ink(f, c).Some?
    ensures Topmost(f, cs + [c], |cs|)
  {
  }

  lemma {:induction false} TopmostUnique(f: Frame, cs: seq<Capture>, i: nat, j: nat)
    requires Topmost(f, cs, i) && Topmost(f, cs, j)
    ensures i == j
  {
  }

  lemma {:induction false} TopPainted(f: Frame, cs: seq<Capture>)
    requires f.captures == ByLayer(cs)
    ensures var colour := Painted(f, Rgba(f.background, 1.0), f.captures);
            && (forall j: nat | Topmost(f, cs, j) :: Ink(f, cs[j]) == Some(colour))
            && ((forall j: nat :: !Topmost(f, cs, j)) ==> colour == Rgba(f.background, 1.0))
  {
    LastIsTopmost(f, cs);
    PaintedLast(f, Rgba(f.background, 1.0), f.captures);
    match Last(f, f.captures)
    case None =>
    case Some(c) =>
      var i: nat :| i < |cs| && Topmost(f, cs, i) && cs[i] == c;
      forall j: nat | Topmost(f, cs, j) ensures j == i { TopmostUnique(f, cs, i, j); }
  }

  // getSortedVisualCaptures followed by the generated shader: the pixel has the colour of the
  // topmost capture with ink on it, images counting as later than videos, or the background.
  method RenderPixel(videos: seq<Capture>, images: seq<Capture>, scene: Vec, background: Rgb,
                     texture: (nat, Vec) -> Rgba, pixel: Vec) returns (colour: Rgba)
    ensures var cs := videos + images;
            var f := Frame(ByLayer(cs), scene, background, texture, pixel);
            && (forall j: nat | Topmost(f, cs, j) :: Ink(f, cs[j]) == Some(colour))
            && ((forall j: nat :: !Topmost(f, cs, j)) ==> colour == Rgba(background, 1.0))
  {
    var cs := videos + images;
    var f := Frame(ByLayer(cs), scene, background, texture, pixel);
    var program := GenerateFragmentShader(|f.captures|);
    TopPainted(f, cs);
    colour := OrElse(Exec(program, f), Rgba(background, 1.0));
  }

  // Where the shader samples a texture, the rectangle has an extent: no division by zero there.
  lemma {:induction false} SampledInside(f: Frame, c: Capture)
    requires Covers(f, c)
    ensures var low, high := Over(c.pos, f.scene), Over(Plus(c.pos, c.res), f.scene);
            var uv := Over(Minus(f.pixel, low), Minus(high, low));
            high.x > low.x && high.y > low.y && 0.0 <= uv.x < 1.0 && 0.0 <= uv.y < 1.0
  {
    var low, high := Over(c.pos, f.scene), Over(Plus(c.pos, c.res), f.scene);
    Fraction(f.pixel.x - low.x, high.x - low.x);
    Fraction(f.pixel.y - low.y, high.y - low.y);
  }

  lemma {:induction false} Fraction(a: real, b: real)
    requires 0.0 <= a < b
    ensures 0.0 <= Div(a, b) < 1.0
  {
    var q := a / b;
    assert q * b == a;
    Ordered(q, 1.0, b);
    Ordered(0.0, q, b);
  }

  // Multiplying by a positive number loses no order.
  lemma {:induction false} Ordered(p: real, q: real, b: real)
    requires b > 0.0
    ensures p >= q <==> p * b >= q * b
  {
    var d := p - q;
    assert p * b - q * b == d * b;
    if d >= 0.0 { assert d * b >= 0.0; } else { assert -d * b > 0.0; }
  }

  // What a capture puts on a pixel, in scene coordinates: nothing outside its rectangle; inside,
  // the fallback colour while it is not ready, and then its texture, sampled at the place of the
  // pixel within the rectangle, unless that is transparent.
  lemma {:induction false} InkMeans(f: Frame, c: Capture)
    requires f.scene.x > 0.0 && f.scene.y > 0.0
    ensures var x, y := f.pixel.x * f.scene.x, f.pixel.y * f.scene.y;
            if !(c.pos.x <= x < c.pos.x + c.res.x && c.pos.y <= y < c.pos.y + c.res.y) then Ink(f, c) == None
            else if !c.ready then Ink(f, c) == Some(Rgba(c.fallback, 1.0))
            else
              var t := f.texture(c.source, Vec((x - c.pos.x) / c.res.x, (y - c.pos.y) / c.res.y));
              Ink(f, c) == if t.alpha > 0.01 then Some(t) else None
  {
    Axis(c.pos.x, c.res.x, f.scene.x, f.pixel.x);
    Axis(c.pos.y, c.res.y, f.scene.y, f.pixel.y);
    var low, high := Over(c.pos, f.scene), Over(Plus(c.pos, c.res), f.scene);
    if Covers(f, c) {
      assert Over(Minus(f.pixel, low), Minus(high, low)) ==
             Vec((f.pixel.x * f.scene.x - c.pos.x) / c.res.x, (f.pixel.y * f.scene.y - c.pos.y) / c.res.y);
    }
  }

  // One axis: in the rectangle, and where in it.
  lemma {:induction false} Axis(pos: real, res: real, scene: real, v: real)
    requires scene > 0.0
    ensures var low, high := pos / scene, (pos + res) / scene;
            && (low <= v < high <==> pos <= v * scene < pos + res)
            && (low <= v < high ==>
                  res > 0.0 && high - low > 0.0 && (v - low) / (high - low) == (v * scene - pos) / res)
  {
    var low, high := pos / scene, (pos + res) / scene;
    Undone(pos, scene);
    Undone(pos + res, scene);
    Ordered(v, low, scene);
    Ordered(v, high, scene);
    if low <= v < high { Within(low, high, scene, v, pos, res); }
  }

  lemma {:induction false} Within(low: real, high: real, scene: real, v: real, pos: real, res: real)
    requires scene > 0.0 && low < high && low * scene == pos && high * scene == pos + res
    ensures res > 0.0 && (v - low) / (high - low) == (v * scene - pos) / res
  {
    Differs(high, low, scene);
    Differs(v, low, scene);
    Scaled(v - low, high - low, scene);
  }

  lemma {:induction false} Undone(a: real, s: real)
    requires s > 0.0
    ensures a / s * s == a
  {
  }

  lemma {:induction false} Differs(a: real, b: real, s: real)
    ensures (a - b) * s == a * s - b * s
  {
  }

  lemma {:induction false} Scaled(a: real, b: real, s: real)
    requires b > 0.0 && s > 0.0
    ensures b * s > 0.0 && a / b == (a * s) / (b * s)
  {
    var q := a / b;
    assert q * b == a;
    assert q * (b * s) == (q * b) * s == a * s;
    assert b * s > 0.0;
  }
}
