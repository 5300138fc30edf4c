/**
 * animate of the app module: particles seeded at random defined points of the field
 * are advanced once per frame along the wind they sit on. A particle whose target
 * point is defined is put in the draw bucket of its speed's intensity style; one that
 * leaves the field is aged out, and one older than MAX_PARTICLE_AGE is seeded again.
 * Drawing a bucket moves its particles to their targets; the stroking itself is canvas
 * output and is not modelled.
 */
module Animations {
  import opened Values
  import opened Micro
  import opened Globes
  import opened Fields

  /** MAX_PARTICLE_AGE. */
  const MaxParticleAge: int := 100
  /** INTENSITY_SCALE_STEP. */
  const IntensityScaleStep: int := 10
  /** PARTICLE_MULTIPLIER. */
  const ParticleMultiplier: real := 7.0
  /** PARTICLE_REDUCTION, applied on mobile devices. */
  const ParticleReduction: real := 0.75

  /** A particle: its position, its target (xt, yt) and its age in frames. */
  datatype Particle = Particle(x: real, y: real, xt: real, yt: real, age: int)

  /**
   * particleCount: Math.round(bounds.width * PARTICLE_MULTIPLIER), reduced on mobile;
   * the loop `i < particleCount` then makes the smallest count of particles that
   * reaches it.
   */
  function ParticleTarget(width: int, mobile: bool): real
  {
    var c := JsRound(width as real * ParticleMultiplier) as real;
    if mobile then c * ParticleReduction else c
  }

  /** How many particles the seeding loop makes. */
  function ParticleCount(width: int, mobile: bool): (n: nat)
    ensures n as real >= ParticleTarget(width, mobile)
    ensures n > 0 ==> (n - 1) as real < ParticleTarget(width, mobile)
  {
    var t := ParticleTarget(width, mobile);
    if t <= 0.0 then 0 else -((-t).Floor)
  }

  /** On a desktop the count is seven per pixel of width. */
  lemma DesktopParticleCount(width: nat)
    ensures ParticleCount(width, false) == 7 * width
  {
    RoundInteger(7 * width);
    assert width as real * ParticleMultiplier == (7 * width) as real;
  }

  /** A one-pixel-wide view on a mobile device gets 6 particles (the target is 5.25). */
  lemma MobileParticleCountExample()
    ensures ParticleTarget(1, true) == 5.25 && ParticleCount(1, true) == 6
  {
    RoundInteger(7);
  }

  /** The particle after the age check: seeded again at spawn, with age 0, when too old. */
  function Respawned(p: Particle, spawn: Option<(int, int)>): (q: Particle)
    ensures p.age > MaxParticleAge && spawn.Some? ==>
              q.x == spawn.value.0 as real && q.y == spawn.value.1 as real && q.age == 0
    ensures !(p.age > MaxParticleAge && spawn.Some?) ==> q == p
  {
    if p.age > MaxParticleAge && spawn.Some? then
      p.(x := spawn.value.0 as real, y := spawn.value.1 as real, age := 0)
    else p
  }

  /** What one particle does in evolve, before its age is incremented, and the speed to bucket it by. */
  datatype Advance = Advance(particle: Particle, speed: Option<real>)

  /**
   * The body of evolve's particle loop up to the bucket push: where the particle is
   * over no wind (a hole or outside the field) it is aged out; otherwise, when the point
   * the wind carries it to is defined, that point becomes its target and it is to be
   * drawn at the wind's speed, and when it is not, the particle moves there unseen.
   */
  function Evolved(p: Particle, spawn: Option<(int, int)>, columns: Columns): (r: Advance)
    ensures var q := Respawned(p, spawn);
            && (!Defined(Lookup(columns, q.x, q.y)) ==> r == Advance(q.(age := MaxParticleAge), None))
            && (r.speed.Some? ==> r.particle.age == q.age && Defined(Lookup(columns, r.particle.xt, r.particle.yt))
                                  && r.particle.x == q.x && r.particle.y == q.y
                                  && r.speed.value == Lookup(columns, q.x, q.y).m)
            && (Defined(Lookup(columns, q.x, q.y)) && r.speed.None? ==>
                  r.particle.age == q.age && !Defined(Lookup(columns, r.particle.x, r.particle.y)))
  {
    var q := Respawned(p, spawn);
    var v := Lookup(columns, q.x, q.y);
    if !v.Wind? then Advance(q.(age := MaxParticleAge), None)
    else
      var xt, yt := q.x + v.u, q.y + v.v;
      if Defined(Lookup(columns, xt, yt)) then Advance(q.(xt := xt, yt := yt), Some(v.m))
      else Advance(q.(x := xt, y := yt), None)
  }

  /** particle.age += 1. */
  function Aged(p: Particle): Particle
  {
    p.(age := p.age + 1)
  }

  /**
   * buckets[colorStyles.indexFor(m)]: the bucket for a speed, or None where the index
   * is not one of the buckets (NaN when maxIntensity is 0, or out of range), where the
   * push throws a TypeError.
   */
  function BucketFor(scale: ColorScale, m: real): (k: Option<nat>)
    ensures k.Some? ==> k.value < |scale.styles|
  {
    if scale.maxWind == 0.0 then None
    else
      var i := scale.IndexFor(m);
      if 0 <= i < |scale.styles| then Some(i) else None
  }

  /** A non-negative speed always has a bucket when maxIntensity is positive. */
  lemma BucketForDefined(scale: ColorScale, m: real)
    requires scale.maxWind > 0.0 && |scale.styles| >= 1 && m >= 0.0
    ensures BucketFor(scale, m).Some? && BucketFor(scale, m).value == scale.IndexFor(m)
  {
    IndexForRange(scale, m);
  }

  /** The buckets after `bucket.length = 0`. */
  function EmptyBuckets(n: nat): (b: seq<seq<nat>>)
    ensures |b| == n && forall k :: 0 <= k < n ==> b[k] == []
  {
    seq(n, _ => [])
  }

  /** The particles, the buckets, and whether a push threw, after evolve's loop. */
  datatype Evolution = Evolution(particles: seq<Particle>, buckets: seq<seq<nat>>, fault: bool)

  /**
   * evolve over the first n particles, with spawn[i] the position field.randomize gave
   * particle i if it was seeded again. The loop stops at the first push that throws,
   * leaving that particle with its new position but its old age.
   */
  function EvolveFrom(ps: seq<Particle>, spawns: seq<Option<(int, int)>>, columns: Columns, scale: ColorScale,
                      n: nat): (e: Evolution)
    requires n <= |ps| && n <= |spawns|
    ensures |e.particles| == |ps| && |e.buckets| == |scale.styles|
    ensures forall j :: n <= j < |ps| ==> e.particles[j] == ps[j]
  {
    if n == 0 then Evolution(ps, EmptyBuckets(|scale.styles|), false)
    else
      var e := EvolveFrom(ps, spawns, columns, scale, n - 1);
      if e.fault then e
      else
        var i := n - 1;
        var a := Evolved(ps[i], spawns[i], columns);
        if a.speed.None? then Evolution(e.particles[i := Aged(a.particle)], e.buckets, false)
        else
          match BucketFor(scale, a.speed.value)
          case None => Evolution(e.particles[i := a.particle], e.buckets, true)
          case Some(k) => Evolution(e.particles[i := Aged(a.particle)], e.buckets[k := e.buckets[k] + [i]], false)
  }

  /** The bucket particle i goes to, if any. */
  function Classified(p: Particle, spawn: Option<(int, int)>, columns: Columns, scale: ColorScale): Option<nat>
  {
    var a := Evolved(p, spawn, columns);
    if a.speed.Some? then BucketFor(scale, a.speed.value) else None
  }

  /**
   * The outcome of the first n steps: each of those particles ends as its own step
   * says, aged by one, and bucket k holds exactly the particles classified into it.
   */
  ghost predicate OutcomeOf(e: Evolution, ps: seq<Particle>, spawns: seq<Option<(int, int)>>, columns: Columns,
                            scale: ColorScale, n: nat)
    requires n <= |ps| && n <= |spawns|
  {
    && |e.particles| == |ps|
    && (forall i :: 0 <= i < n ==> e.particles[i] == Aged(Evolved(ps[i], spawns[i], columns).particle))
    && BucketsExact(e.buckets, ps, spawns, columns, scale, n)
  }

  /** Bucket k holds exactly those of the first n particles classified into k. */
  ghost predicate BucketsExact(buckets: seq<seq<nat>>, ps: seq<Particle>, spawns: seq<Option<(int, int)>>,
                               columns: Columns, scale: ColorScale, n: nat)
    requires n <= |ps| && n <= |spawns|
  {
    && |buckets| == |scale.styles|
    && forall i: nat, k: nat :: k < |scale.styles| ==>
         (i in buckets[k] <==> i < n && Classified(ps[i], spawns[i], columns, scale) == Some(k))
  }

  /** BucketsExact for one particle index j and one bucket k. */
  lemma BucketMember(buckets: seq<seq<nat>>, ps: seq<Particle>, spawns: seq<Option<(int, int)>>,
                     columns: Columns, scale: ColorScale, n: nat, j: nat, k: nat)
    requires n <= |ps| && n <= |spawns|
    requires BucketsExact(buckets, ps, spawns, columns, scale, n)
    requires k < |scale.styles|
    ensures j in buckets[k] <==> j < n && Classified(ps[j], spawns[j], columns, scale) == Some(k)
  {
    var held := j in buckets[k];
    var classified := j < n && Classified(ps[j], spawns[j], columns, scale) == Some(k);
    assert held <==> classified;
  }

  /** When no push throws, evolve over the first n particles has the outcome OutcomeOf describes. */
  lemma {:induction false} EvolveOutcome(ps: seq<Particle>, spawns: seq<Option<(int, int)>>, columns: Columns,
                                         scale: ColorScale, n: nat)
    requires n <= |ps| && n <= |spawns|
    requires !EvolveFrom(ps, spawns, columns, scale, n).fault
    ensures OutcomeOf(EvolveFrom(ps, spawns, columns, scale, n), ps, spawns, columns, scale, n)
  {
    if n > 0 {
      EvolveOutcome(ps, spawns, columns, scale, n - 1);
      EvolveFromNext(ps, spawns, columns, scale, n - 1);
      OutcomeExtend(ps, spawns, columns, scale, n - 1, EvolveFrom(ps, spawns, columns, scale, n - 1),
                    EvolveFrom(ps, spawns, columns, scale, n));
    }
  }

  /**
   * One particle more: a step that does not throw updates particle i to its aged
   * result and appends i to the bucket it is classified into, so the outcome extends.
   */
  lemma OutcomeExtend(ps: seq<Particle>, spawns: seq<Option<(int, int)>>, columns: Columns, scale: ColorScale,
                      i: nat, e: Evolution, e': Evolution)
    requires i < |ps| && i < |spawns|
    requires OutcomeOf(e, ps, spawns, columns, scale, i)
    requires var a := Evolved(ps[i], spawns[i], columns);
             e' == if a.speed.None? then Evolution(e.particles[i := Aged(a.particle)], e.buckets, false)
                   else if BucketFor(scale, a.speed.value).None? then Evolution(e.particles[i := a.particle], e.buckets, true)
                   else var k := BucketFor(scale, a.speed.value).value;
                        Evolution(e.particles[i := Aged(a.particle)], e.buckets[k := e.buckets[k] + [i]], false)
    requires !e'.fault
    ensures OutcomeOf(e', ps, spawns, columns, scale, i + 1)
  {
    var a := Evolved(ps[i], spawns[i], columns);
    assert e'.particles == e.particles[i := Aged(a.particle)];
    assert BucketsExact(e.buckets, ps, spawns, columns, scale, i);
    forall j: nat, k: nat | k < |scale.styles|
      ensures j in e'.buckets[k] <==> j < i + 1 && Classified(ps[j], spawns[j], columns, scale) == Some(k)
    {
      BucketMember(e.buckets, ps, spawns, columns, scale, i, j, k);
      if a.speed.None? {
        assert e'.buckets[k] == e.buckets[k];
        assert Classified(ps[i], spawns[i], columns, scale).None?;
      } else {
        var b := BucketFor(scale, a.speed.value).value;
        assert Classified(ps[i], spawns[i], columns, scale) == Some(b);
        if k == b {
          assert e'.buckets[k] == e.buckets[k] + [i];
        } else {
          assert e'.buckets[k] == e.buckets[k];
        }
      }
    }
    assert BucketsExact(e'.buckets, ps, spawns, columns, scale, i + 1);
  }

  /** A push throws only for a speed that has no bucket. */
  lemma {:induction false} EvolveFaultCause(ps: seq<Particle>, spawns: seq<Option<(int, int)>>, columns: Columns,
                                            scale: ColorScale, n: nat)
    requires n <= |ps| && n <= |spawns|
    requires EvolveFrom(ps, spawns, columns, scale, n).fault
    ensures exists i :: 0 <= i < n && Evolved(ps[i], spawns[i], columns).speed.Some?
                        && BucketFor(scale, Evolved(ps[i], spawns[i], columns).speed.value).None?
  {
    var e := EvolveFrom(ps, spawns, columns, scale, n - 1);
    if e.fault {
      EvolveFaultCause(ps, spawns, columns, scale, n - 1);
    } else {
      assert 0 <= n - 1 < n;
    }
  }

  /**
   * When maxIntensity is positive and every stored wind speed is non-negative, no push
   * throws.
   */
  lemma NoFaultForValidSpeeds(ps: seq<Particle>, spawns: seq<Option<(int, int)>>, columns: Columns,
                              scale: ColorScale, n: nat)
    requires n <= |ps| && n <= |spawns|
    requires scale.maxWind > 0.0 && |scale.styles| >= 1
    requires forall cx, cy :: cx in columns && cy in columns[cx] && columns[cx][cy].Wind? ==> columns[cx][cy].m >= 0.0
    ensures !EvolveFrom(ps, spawns, columns, scale, n).fault
  {
    if EvolveFrom(ps, spawns, columns, scale, n).fault {
      EvolveFaultCause(ps, spawns, columns, scale, n);
      var i :| 0 <= i < n && Evolved(ps[i], spawns[i], columns).speed.Some?
               && BucketFor(scale, Evolved(ps[i], spawns[i], columns).speed.value).None?;
      var q := Respawned(ps[i], spawns[i]);
      var m := Evolved(ps[i], spawns[i], columns).speed.value;
      assert m == Lookup(columns, q.x, q.y).m;
      BucketForDefined(scale, m);
    }
  }

  /** Every too-old particle has a spawn position among the first n. */
  ghost predicate SpawnsCover(ps: seq<Particle>, spawns: seq<Option<(int, int)>>, n: nat)
    requires n <= |ps| && n <= |spawns|
  {
    forall i :: 0 <= i < n && ps[i].age > MaxParticleAge ==> spawns[i].Some?
  }

  /** Every particle's age lies in [0, MAX_PARTICLE_AGE + 1]. */
  ghost predicate AgesBounded(ps: seq<Particle>)
  {
    forall i :: 0 <= i < |ps| ==> 0 <= ps[i].age <= MaxParticleAge + 1
  }

  /** One step keeps the age within [0, MAX_PARTICLE_AGE + 1], counting the increment. */
  lemma EvolvedAge(p: Particle, spawn: Option<(int, int)>, columns: Columns)
    requires 0 <= p.age <= MaxParticleAge + 1
    requires p.age > MaxParticleAge ==> spawn.Some?
    ensures var a := Evolved(p, spawn, columns).particle;
            0 <= a.age <= MaxParticleAge && 1 <= Aged(a).age <= MaxParticleAge + 1
  {
  }

  /** Ages stay within [0, MAX_PARTICLE_AGE + 1] through evolve, thrown or not. */
  lemma {:induction false} EvolveKeepsAges(ps: seq<Particle>, spawns: seq<Option<(int, int)>>, columns: Columns,
                                           scale: ColorScale, n: nat)
    requires n <= |ps| && n <= |spawns|
    requires AgesBounded(ps) && SpawnsCover(ps, spawns, n)
    ensures AgesBounded(EvolveFrom(ps, spawns, columns, scale, n).particles)
  {
    if n > 0 {
      EvolveKeepsAges(ps, spawns, columns, scale, n - 1);
      EvolvedAge(ps[n - 1], spawns[n - 1], columns);
    }
  }

  /**
   * Starting from ages in [0, MAX_PARTICLE_AGE + 1], a frame whose evolve does not
   * throw leaves every particle aged in [1, MAX_PARTICLE_AGE + 1].
   */
  lemma EvolveAgesAfterTick(ps: seq<Particle>, spawns: seq<Option<(int, int)>>, columns: Columns,
                            scale: ColorScale)
    requires |spawns| == |ps|
    requires AgesBounded(ps) && SpawnsCover(ps, spawns, |ps|)
    requires !EvolveFrom(ps, spawns, columns, scale, |ps|).fault
    ensures var e := EvolveFrom(ps, spawns, columns, scale, |ps|);
            forall i :: 0 <= i < |ps| ==> 1 <= e.particles[i].age <= MaxParticleAge + 1
  {
    EvolveOutcome(ps, spawns, columns, scale, |ps|);
    forall i | 0 <= i < |ps|
      ensures 1 <= Aged(Evolved(ps[i], spawns[i], columns).particle).age <= MaxParticleAge + 1
    {
      EvolvedAge(ps[i], spawns[i], columns);
    }
  }

  /** A bucketed particle's target is a defined point of the field. */
  lemma BucketedTargetDefined(ps: seq<Particle>, spawns: seq<Option<(int, int)>>, columns: Columns,
                              scale: ColorScale, n: nat, i: nat, k: nat)
    requires n <= |ps| && n <= |spawns|
    requires !EvolveFrom(ps, spawns, columns, scale, n).fault
    requires k < |scale.styles| && i in EvolveFrom(ps, spawns, columns, scale, n).buckets[k]
    ensures i < n
    ensures var p := EvolveFrom(ps, spawns, columns, scale, n).particles[i];
            Defined(Lookup(columns, p.xt, p.yt))
  {
    EvolveOutcome(ps, spawns, columns, scale, n);
  }

  /**
   * A particle over no wind (a hole, or outside the field) is given the maximum age, so
   * after its increment it is seeded again on the next frame.
   */
  lemma EscapedParticleIsReseeded(p: Particle, spawn: Option<(int, int)>, columns: Columns, next: (int, int))
    requires p.age <= MaxParticleAge
    requires !Defined(Lookup(columns, p.x, p.y))
    ensures var a := Aged(Evolved(p, spawn, columns).particle);
            a.age == MaxParticleAge + 1 && Respawned(a, Some(next)).age == 0
            && Respawned(a, Some(next)).x == next.0 as real && Respawned(a, Some(next)).y == next.1 as real
  {
  }

  /** What drawing does to a bucketed particle: it moves to its target. */
  function Landed(p: Particle): (q: Particle)
    ensures q.x == p.xt && q.y == p.yt && q.xt == p.xt && q.yt == p.yt && q.age == p.age
  {
    p.(x := p.xt, y := p.yt)
  }

  /** Particle i is in some bucket. */
  ghost predicate Drawn(buckets: seq<seq<nat>>, i: int)
  {
    exists k :: 0 <= k < |buckets| && i in buckets[k]
  }

  /** Both coordinates of the spawn position are drawn between the bounds, in either order. */
  predicate SpawnWithin(b: Bounds, spawn: (int, int))
  {
    && ((b.x <= spawn.0 <= b.xMax) || (b.xMax <= spawn.0 <= b.x))
    && ((b.y <= spawn.1 <= b.yMax) || (b.yMax <= spawn.1 <= b.y))
  }

  /** A particle seeded by randomize: at a whole-pixel position between the bounds. */
  predicate SeededWithin(b: Bounds, p: Particle)
  {
    p.x == p.x.Floor as real && p.y == p.y.Floor as real && SpawnWithin(b, (p.x.Floor, p.y.Floor))
  }

  /** One more particle of evolve, unfolded. */
  lemma EvolveFromNext(ps: seq<Particle>, spawns: seq<Option<(int, int)>>, columns: Columns, scale: ColorScale, i: nat)
    requires i < |ps| && i < |spawns|
    requires !EvolveFrom(ps, spawns, columns, scale, i).fault
    ensures var e, a := EvolveFrom(ps, spawns, columns, scale, i), Evolved(ps[i], spawns[i], columns);
            EvolveFrom(ps, spawns, columns, scale, i + 1) ==
              if a.speed.None? then Evolution(e.particles[i := Aged(a.particle)], e.buckets, false)
              else if BucketFor(scale, a.speed.value).None? then Evolution(e.particles[i := a.particle], e.buckets, true)
              else var k := BucketFor(scale, a.speed.value).value;
                   Evolution(e.particles[i := Aged(a.particle)], e.buckets[k := e.buckets[k] + [i]], false)
  {
  }

  /** evolve's state after i particles, over values; fault says whether the i-th push threw. */
  ghost predicate Progress(ps0: seq<Particle>, spawns: seq<Option<(int, int)>>, ps: seq<Particle>,
                           buckets: seq<seq<nat>>, columns: Columns, b: Bounds, scale: ColorScale, i: nat, fault: bool)
  {
    && i <= |ps0| && |spawns| == i
    && (var e := EvolveFrom(ps0, spawns, columns, scale, i); ps == e.particles && buckets == e.buckets && e.fault == fault)
    && (forall k, j :: 0 <= k < |buckets| && 0 <= j < |buckets[k]| ==> buckets[k][j] < i)
    && (forall j :: 0 <= j < i ==> (spawns[j].Some? <==> ps0[j].age > MaxParticleAge))
    && (forall j :: 0 <= j < i && spawns[j].Some? ==> SpawnWithin(b, spawns[j].value))
    && AgesBounded(ps)
  }

  /** One iteration of evolve's loop keeps its invariant, or stops at a throwing push. */
  lemma ProgressStep(ps0: seq<Particle>, spawns: seq<Option<(int, int)>>, ps: seq<Particle>,
                     buckets: seq<seq<nat>>, columns: Columns, b: Bounds, scale: ColorScale, i: nat,
                     spawn: Option<(int, int)>, p: Particle, speed: Option<real>)
    requires Progress(ps0, spawns, ps, buckets, columns, b, scale, i, false) && i < |ps0|
    requires Advance(p, speed) == Evolved(ps[i], spawn, columns)
    requires (spawn.Some? <==> ps[i].age > MaxParticleAge) && (spawn.Some? ==> SpawnWithin(b, spawn.value))
    ensures var s' := spawns + [spawn];
            && (speed.None? ==> Progress(ps0, s', ps[i := Aged(p)], buckets, columns, b, scale, i + 1, false))
            && (speed.Some? && BucketFor(scale, speed.value).Some? ==>
                  var k := BucketFor(scale, speed.value).value;
                  Progress(ps0, s', ps[i := Aged(p)], buckets[k := buckets[k] + [i]], columns, b, scale, i + 1, false))
            && (speed.Some? && BucketFor(scale, speed.value).None? ==>
                  Progress(ps0, s', ps[i := p], buckets, columns, b, scale, i + 1, true))
  {
    var s' := spawns + [spawn];
    ProgressNext(ps0, spawns, ps, buckets, columns, b, scale, i, spawn, p, speed);
    if speed.None? {
      ProgressUnbucketed(ps0, s', ps, buckets, columns, b, scale, i, p);
    } else if BucketFor(scale, speed.value).Some? {
      ProgressBucketed(ps0, s', ps, buckets, columns, b, scale, i, p, BucketFor(scale, speed.value).value);
    } else {
      ProgressThrown(ps0, s', ps, buckets, columns, b, scale, i, p);
    }
  }

  /**
   * The facts the three cases of an iteration share: evolve over the longer spawn list
   * agrees up to i, and the step of particle i keeps its age in bounds.
   */
  lemma ProgressNext(ps0: seq<Particle>, spawns: seq<Option<(int, int)>>, ps: seq<Particle>,
                     buckets: seq<seq<nat>>, columns: Columns, b: Bounds, scale: ColorScale, i: nat,
                     spawn: Option<(int, int)>, p: Particle, speed: Option<real>)
    requires Progress(ps0, spawns, ps, buckets, columns, b, scale, i, false) && i < |ps0|
    requires Advance(p, speed) == Evolved(ps[i], spawn, columns)
    requires (spawn.Some? <==> ps[i].age > MaxParticleAge) && (spawn.Some? ==> SpawnWithin(b, spawn.value))
    ensures var s' := spawns + [spawn];
            && |s'| == i + 1 && s'[i] == spawn && ps[i] == ps0[i]
            && EvolveFrom(ps0, s', columns, scale, i) == Evolution(ps, buckets, false)
            && Evolved(ps0[i], s'[i], columns) == Advance(p, speed)
            && (forall j :: 0 <= j < i + 1 ==> (s'[j].Some? <==> ps0[j].age > MaxParticleAge))
            && (forall j :: 0 <= j < i + 1 && s'[j].Some? ==> SpawnWithin(b, s'[j].value))
            && 0 <= p.age <= MaxParticleAge && 1 <= Aged(p).age <= MaxParticleAge + 1
  {
    var s' := spawns + [spawn];
    assert s'[..i] == spawns[..i];
    EvolveSpawnsPrefix(ps0, spawns, s', columns, scale, i);
    assert ps[i] == ps0[i];
    EvolvedAge(ps[i], spawn, columns);
  }

  /** Replacing one particle by one whose age is in bounds keeps every age in bounds. */
  lemma AgesBoundedUpdate(ps: seq<Particle>, i: nat, p: Particle)
    requires AgesBounded(ps) && i < |ps|
    requires 0 <= p.age <= MaxParticleAge + 1
    ensures AgesBounded(ps[i := p])
  {
  }

  /** An iteration whose particle is not bucketed keeps the invariant. */
  lemma ProgressUnbucketed(ps0: seq<Particle>, s': seq<Option<(int, int)>>, ps: seq<Particle>,
                           buckets: seq<seq<nat>>, columns: Columns, b: Bounds, scale: ColorScale, i: nat, p: Particle)
    requires i < |ps0| && |s'| == i + 1 && |ps| == |ps0| && AgesBounded(ps)
    requires EvolveFrom(ps0, s', columns, scale, i) == Evolution(ps, buckets, false)
    requires Evolved(ps0[i], s'[i], columns) == Advance(p, None)
    requires forall k, j :: 0 <= k < |buckets| && 0 <= j < |buckets[k]| ==> buckets[k][j] < i
    requires forall j :: 0 <= j < i + 1 ==> (s'[j].Some? <==> ps0[j].age > MaxParticleAge)
    requires forall j :: 0 <= j < i + 1 && s'[j].Some? ==> SpawnWithin(b, s'[j].value)
    requires 1 <= Aged(p).age <= MaxParticleAge + 1
    ensures Progress(ps0, s', ps[i := Aged(p)], buckets, columns, b, scale, i + 1, false)
  {
    EvolveFromNext(ps0, s', columns, scale, i);
    AgesBoundedUpdate(ps, i, Aged(p));
  }

  /** An iteration that pushes its particle into bucket k keeps the invariant. */
  lemma ProgressBucketed(ps0: seq<Particle>, s': seq<Option<(int, int)>>, ps: seq<Particle>,
                         buckets: seq<seq<nat>>, columns: Columns, b: Bounds, scale: ColorScale, i: nat, p: Particle,
                         k: nat)
    requires i < |ps0| && |s'| == i + 1 && |ps| == |ps0| && AgesBounded(ps)
    requires EvolveFrom(ps0, s', columns, scale, i) == Evolution(ps, buckets, false)
    requires var a := Evolved(ps0[i], s'[i], columns);
             a.particle == p && a.speed.Some? && BucketFor(scale, a.speed.value) == Some(k)
    requires forall kk, j :: 0 <= kk < |buckets| && 0 <= j < |buckets[kk]| ==> buckets[kk][j] < i
    requires forall j :: 0 <= j < i + 1 ==> (s'[j].Some? <==> ps0[j].age > MaxParticleAge)
    requires forall j :: 0 <= j < i + 1 && s'[j].Some? ==> SpawnWithin(b, s'[j].value)
    requires 1 <= Aged(p).age <= MaxParticleAge + 1
    ensures k < |buckets|
    ensures Progress(ps0, s', ps[i := Aged(p)], buckets[k := buckets[k] + [i]], columns, b, scale, i + 1, false)
  {
    EvolveBucketedNext(ps0, s', ps, buckets, columns, scale, i, p, k);
    AgesBoundedUpdate(ps, i, Aged(p));
    BucketsBoundedPush(buckets, k, i);
    ProgressIntro(ps0, s', ps[i := Aged(p)], buckets[k := buckets[k] + [i]], columns, b, scale, i + 1, false);
  }

  /** Before the first iteration: no spawns, the particles as they were, empty buckets. */
  lemma ProgressInit(ps0: seq<Particle>, columns: Columns, b: Bounds, scale: ColorScale)
    requires AgesBounded(ps0)
    ensures Progress(ps0, [], ps0, EmptyBuckets(|scale.styles|), columns, b, scale, 0, false)
  {
  }

  /** What the invariant says once evolve's loop is left, by the end or by a throw. */
  lemma ProgressDone(ps0: seq<Particle>, spawns: seq<Option<(int, int)>>, ps: seq<Particle>,
                     buckets: seq<seq<nat>>, columns: Columns, b: Bounds, scale: ColorScale, n: nat, fault: bool)
    requires Progress(ps0, spawns, ps, buckets, columns, b, scale, n, fault)
    ensures |ps| == |ps0| && |buckets| == |scale.styles| && |spawns| == n <= |ps0|
    ensures forall k, j :: 0 <= k < |buckets| && 0 <= j < |buckets[k]| ==> buckets[k][j] < |ps0|
    ensures AgesBounded(ps)
    ensures var e := EvolveFrom(ps0, spawns, columns, scale, n);
            ps == e.particles && buckets == e.buckets && fault == e.fault
    ensures forall j :: 0 <= j < n ==> (spawns[j].Some? <==> ps0[j].age > MaxParticleAge)
    ensures forall j :: 0 <= j < n && spawns[j].Some? ==> SpawnWithin(b, spawns[j].value)
  {
  }

  /** The invariant of evolve's loop, from its conjuncts. */
  lemma ProgressIntro(ps0: seq<Particle>, spawns: seq<Option<(int, int)>>, ps: seq<Particle>,
                      buckets: seq<seq<nat>>, columns: Columns, b: Bounds, scale: ColorScale, i: nat, fault: bool)
    requires i <= |ps0| && |spawns| == i
    requires EvolveFrom(ps0, spawns, columns, scale, i) == Evolution(ps, buckets, fault)
    requires forall k, j :: 0 <= k < |buckets| && 0 <= j < |buckets[k]| ==> buckets[k][j] < i
    requires forall j :: 0 <= j < i ==> (spawns[j].Some? <==> ps0[j].age > MaxParticleAge)
    requires forall j :: 0 <= j < i && spawns[j].Some? ==> SpawnWithin(b, spawns[j].value)
    requires AgesBounded(ps)
    ensures Progress(ps0, spawns, ps, buckets, columns, b, scale, i, fault)
  {
  }

  /** evolve over one more particle, which is pushed into bucket k. */
  lemma EvolveBucketedNext(ps0: seq<Particle>, s': seq<Option<(int, int)>>, ps: seq<Particle>,
                           buckets: seq<seq<nat>>, columns: Columns, scale: ColorScale, i: nat, p: Particle, k: nat)
    requires i < |ps0| && |s'| == i + 1
    requires EvolveFrom(ps0, s', columns, scale, i) == Evolution(ps, buckets, false)
    requires var a := Evolved(ps0[i], s'[i], columns);
             a.particle == p && a.speed.Some? && BucketFor(scale, a.speed.value) == Some(k)
    ensures k < |buckets|
    ensures EvolveFrom(ps0, s', columns, scale, i + 1)
            == Evolution(ps[i := Aged(p)], buckets[k := buckets[k] + [i]], false)
  {
    EvolveFromNext(ps0, s', columns, scale, i);
  }

  /** Pushing index i onto a bucket keeps every bucketed index below i + 1. */
  lemma BucketsBoundedPush(buckets: seq<seq<nat>>, k: nat, i: nat)
    requires k < |buckets|
    requires forall kk, j :: 0 <= kk < |buckets| && 0 <= j < |buckets[kk]| ==> buckets[kk][j] < i
    ensures var bs := buckets[k := buckets[k] + [i]];
            forall kk, j :: 0 <= kk < |bs| && 0 <= j < |bs[kk]| ==> bs[kk][j] < i + 1
  {
  }

  /** An iteration whose push throws leaves the particle un-aged and stops with the fault. */
  lemma ProgressThrown(ps0: seq<Particle>, s': seq<Option<(int, int)>>, ps: seq<Particle>,
                       buckets: seq<seq<nat>>, columns: Columns, b: Bounds, scale: ColorScale, i: nat, p: Particle)
    requires i < |ps0| && |s'| == i + 1 && |ps| == |ps0| && AgesBounded(ps)
    requires EvolveFrom(ps0, s', columns, scale, i) == Evolution(ps, buckets, false)
    requires var a := Evolved(ps0[i], s'[i], columns);
             a.particle == p && a.speed.Some? && BucketFor(scale, a.speed.value).None?
    requires forall k, j :: 0 <= k < |buckets| && 0 <= j < |buckets[k]| ==> buckets[k][j] < i
    requires forall j :: 0 <= j < i + 1 ==> (s'[j].Some? <==> ps0[j].age > MaxParticleAge)
    requires forall j :: 0 <= j < i + 1 && s'[j].Some? ==> SpawnWithin(b, s'[j].value)
    requires 0 <= p.age <= MaxParticleAge
    ensures Progress(ps0, s', ps[i := p], buckets, columns, b, scale, i + 1, true)
  {
    EvolveFromNext(ps0, s', columns, scale, i);
    AgesBoundedUpdate(ps, i, p);
  }

  /** How a frame ends: released on cancel, stopped by a reported error, or scheduled again. */
  datatype FrameOutcome = Released | Reported | Rescheduled

  /** The animation's state: the field, the intensity styles, the particles and the draw buckets. */
  class Animation {
    const field: Field
    const scale: ColorScale
    const particles: array<Particle>
    var buckets: seq<seq<nat>>

    /** One bucket per style, holding particle indices, and ages within [0, MAX_PARTICLE_AGE + 1]. */
    ghost predicate Valid()
      reads this, particles
    {
      && |buckets| == |scale.styles|
      && (forall k, j :: 0 <= k < |buckets| && 0 <= j < |buckets[k]| ==> buckets[k][j] < particles.Length)
      && AgesBounded(particles[..])
    }

    /**
     * The set-up of animate: the intensity styles for maxIntensity, empty buckets, and
     * particleCount particles, each with an age drawn from [0, MAX_PARTICLE_AGE] and a
     * position drawn by field.randomize.
     */
    constructor (field: Field, maxIntensity: real, width: int, mobile: bool)
      ensures this.field == field && scale.maxWind == maxIntensity
      ensures |scale.styles| == 18 && forall k :: 0 <= k < 18 ==> scale.styles[k] == Gray(85 + k * 10)
      ensures fresh(particles) && particles.Length == ParticleCount(width, mobile)
      ensures buckets == EmptyBuckets(18)
      ensures forall i :: 0 <= i < particles.Length ==>
                0 <= particles[i].age <= MaxParticleAge && particles[i].x == particles[i].xt
                && particles[i].y == particles[i].yt
      ensures forall i :: 0 <= i < particles.Length ==> SeededWithin(field.bounds, particles[i])
      ensures Valid()
    {
      var s := WindIntensityColorScale(IntensityScaleStep, maxIntensity);
      IntensityScaleOfStep10(s);
      var n := ParticleCount(width, mobile);
      this.field := field;
      scale := s;
      buckets := EmptyBuckets(|s.styles|);
      particles := new Particle[n];
      new;
      for i := 0 to n
        invariant buckets == EmptyBuckets(|s.styles|)
        invariant forall j :: 0 <= j < i ==>
                    0 <= particles[j].age <= MaxParticleAge && particles[j].x == particles[j].xt
                    && particles[j].y == particles[j].yt
        invariant forall j :: 0 <= j < i ==> SeededWithin(field.bounds, particles[j])
      {
        var age := Fields.RandomBetween(0, MaxParticleAge);
        var x, y, _ := field.Randomize();
        particles[i] := Particle(x as real, y as real, x as real, y as real, age);
      }
    }

    /**
     * evolve: empty the buckets, then step every particle in order, seeding it again
     * with field.randomize when it is too old. Returns the spawn positions drawn, and
     * whether a bucket push threw; on a throw the loop stops there.
     */
    method Evolve() returns (spawns: seq<Option<(int, int)>>, fault: bool)
      requires Valid()
      modifies this, particles
      ensures Valid()
      ensures |spawns| <= particles.Length && (!fault ==> |spawns| == particles.Length)
      ensures var e := EvolveFrom(old(particles[..]), spawns, field.columns, scale, |spawns|);
              particles[..] == e.particles && buckets == e.buckets && fault == e.fault
      ensures forall i :: 0 <= i < |spawns| ==> (spawns[i].Some? <==> old(particles[i]).age > MaxParticleAge)
      ensures forall i :: 0 <= i < |spawns| && spawns[i].Some? ==> SpawnWithin(field.bounds, spawns[i].value)
    {
      ghost var ps0 := particles[..];
      buckets := EmptyBuckets(|scale.styles|);
      spawns := [];
      fault := false;
      var i := 0;
      ProgressInit(ps0, field.columns, field.bounds, scale);
      while i < particles.Length
        invariant Progress(ps0, spawns, particles[..], buckets, field.columns, field.bounds, scale, i, false)
      {
        var spawn, p, speed := StepParticle(particles[i]);
        ghost var ps := particles[..];
        ProgressStep(ps0, spawns, ps, buckets, field.columns, field.bounds, scale, i, spawn, p, speed);
        spawns := spawns + [spawn];
        if speed.Some? {
          var k := BucketFor(scale, speed.value);
          if k.None? {
            particles[i] := p;
            assert particles[..] == ps[i := p];
            fault := true;
            ProgressDone(ps0, spawns, particles[..], buckets, field.columns, field.bounds, scale, |spawns|, fault);
            return;
          }
          buckets := buckets[k.value := buckets[k.value] + [i]];
        }
        particles[i] := Aged(p);
        assert particles[..] == ps[i := Aged(p)];
        i := i + 1;
      }
      ProgressDone(ps0, spawns, particles[..], buckets, field.columns, field.bounds, scale, |spawns|, fault);
    }

    /**
     * The body of evolve's particle loop for one particle, up to the bucket push: seed
     * it again with field.randomize when it is too old, then look up the wind under it
     * and either age it out, give it a defined target, or move it on unseen.
     */
    method StepParticle(particle: Particle) returns (spawn: Option<(int, int)>, p: Particle, speed: Option<real>)
      ensures Advance(p, speed) == Evolved(particle, spawn, field.columns)
      ensures spawn.Some? <==> particle.age > MaxParticleAge
      ensures spawn.Some? ==> SpawnWithin(field.bounds, spawn.value)
    {
      p := particle;
      spawn := None;
      if p.age > MaxParticleAge {
        var sx, sy, _ := field.Randomize();
        spawn := Some((sx, sy));
        p := p.(x := sx as real, y := sy as real, age := 0);
      }
      var v := field.At(p.x, p.y);
      speed := None;
      if !v.Wind? {
        p := p.(age := MaxParticleAge);
      } else {
        var xt, yt := p.x + v.u, p.y + v.v;
        if field.IsDefined(xt, yt) {
          p := p.(xt := xt, yt := yt);
          speed := Some(v.m);
        } else {
          p := p.(x := xt, y := yt);
        }
      }
    }

    /**
     * draw: walk the buckets in order and move each bucketed particle to its target
     * (the trail stroked from (x, y) to (xt, yt) is canvas output).
     */
    method Draw()
      requires Valid()
      modifies particles
      ensures Valid()
      ensures forall i :: 0 <= i < particles.Length ==>
                particles[i] == (if Drawn(buckets, i) then Landed(old(particles[i])) else old(particles[i]))
    {
      for b := 0 to |buckets|
        invariant forall i :: 0 <= i < particles.Length ==>
                    particles[i] == (if Drawn(buckets[..b], i) then Landed(old(particles[i])) else old(particles[i]))
      {
        var bucket := buckets[b];
        for j := 0 to |bucket|
          invariant forall i :: 0 <= i < particles.Length ==>
                      particles[i] == (if Drawn(buckets[..b], i) || i in bucket[..j] then Landed(old(particles[i]))
                                       else old(particles[i]))
        {
          var i := bucket[j];
          assert bucket[..j + 1] == bucket[..j] + [i];
          particles[i] := Landed(particles[i]);
        }
        assert bucket[..|bucket|] == bucket;
        DrawnExtend(buckets, b);
      }
      assert buckets[..|buckets|] == buckets;
    }

    /**
     * frame: on cancel, release the field and stop; otherwise evolve and draw, and
     * schedule the next frame unless evolve threw, in which case the error is reported
     * and the animation stops.
     */
    method Frame(cancelRequested: bool) returns (outcome: FrameOutcome, spawns: seq<Option<(int, int)>>)
      requires Valid()
      modifies this, particles, field
      ensures Valid()
      ensures |spawns| <= particles.Length
      ensures cancelRequested ==> outcome == Released && field.columns == map[]
                                  && particles[..] == old(particles[..]) && buckets == old(buckets)
      ensures !cancelRequested ==>
                var e := EvolveFrom(old(particles[..]), spawns, field.columns, scale, |spawns|);
                && field.columns == old(field.columns)
                && buckets == e.buckets
                && (outcome == Reported <==> e.fault) && outcome != Released
                && (e.fault ==> particles[..] == e.particles)
                && (!e.fault ==> |spawns| == particles.Length
                                 && forall i :: 0 <= i < particles.Length ==>
                                      particles[i] == (if Drawn(e.buckets, i) then Landed(e.particles[i]) else e.particles[i]))
      ensures !cancelRequested ==>
                forall i :: 0 <= i < |spawns| ==> (spawns[i].Some? <==> old(particles[i]).age > MaxParticleAge)
      ensures !cancelRequested ==>
                forall i :: 0 <= i < |spawns| && spawns[i].Some? ==> SpawnWithin(field.bounds, spawns[i].value)
    {
      spawns := [];
      if cancelRequested {
        field.Release();
        outcome := Released;
        return;
      }
      var fault;
      spawns, fault := Evolve();
      if fault {
        outcome := Reported;
        return;
      }
      Draw();
      outcome := Rescheduled;
    }
  }

  /** evolve over the first n particles looks only at the first n spawn positions. */
  lemma {:induction false} EvolveSpawnsPrefix(ps: seq<Particle>, s1: seq<Option<(int, int)>>,
                                              s2: seq<Option<(int, int)>>, columns: Columns, scale: ColorScale, n: nat)
    requires n <= |ps| && n <= |s1| && n <= |s2|
    requires s1[..n] == s2[..n]
    ensures EvolveFrom(ps, s1, columns, scale, n) == EvolveFrom(ps, s2, columns, scale, n)
  {
    if n > 0 {
      assert s1[..n - 1] == s2[..n - 1] by {
        assert s1[..n - 1] == s1[..n][..n - 1] && s2[..n - 1] == s2[..n][..n - 1];
      }
      assert s1[n - 1] == s1[..n][n - 1] && s2[n - 1] == s2[..n][n - 1];
      EvolveSpawnsPrefix(ps, s1, s2, columns, scale, n - 1);
    }
  }

  /** Being drawn by the first b + 1 buckets is being drawn by the first b, or by bucket b. */
  lemma DrawnExtend(buckets: seq<seq<nat>>, b: nat)
    requires b < |buckets|
    ensures forall i :: Drawn(buckets[..b + 1], i) <==> Drawn(buckets[..b], i) || i in buckets[b]
  {
    forall i
      ensures Drawn(buckets[..b + 1], i) <==> Drawn(buckets[..b], i) || i in buckets[b]
    {
      if Drawn(buckets[..b + 1], i) {
        var k :| 0 <= k < b + 1 && i in buckets[..b + 1][k];
        if k < b {
          assert buckets[..b][k] == buckets[k];
        }
      }
      if Drawn(buckets[..b], i) {
        var k :| 0 <= k < b && i in buckets[..b][k];
        assert buckets[..b + 1][k] == buckets[k];
      }
      if i in buckets[b] {
        assert buckets[..b + 1][b] == buckets[b];
      }
    }
  }
}
