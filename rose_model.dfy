/**
 * The discrete rules of the interactive rose (rose3d.js), stated on values:
 * the click-progress state, the step each event takes, the ordered insertion
 * of plan cards, the pruning of finished petal-fall animations, and the
 * invariant that every event's step keeps (the fourth click under the
 * conditions in which `onPetalClick` takes it, the model load on an object
 * without petals).  The class in module Rose implements these steps
 * imperatively and is proved against them.
 */
module RoseModel {
  import opened Common

  /** One entry of the plan table; `index` orders the cards chronologically. */
  datatype Plan = Plan(index: nat, time: string, title: string)

  /** The plan table: petal `i` reveals plan `i`. */
  const PetalPlans: seq<Plan> := [
    Plan(0, "2:00 PM", "Novikov"),
    Plan(1, "4:00 PM", "Sushi Class"),
    Plan(2, "After", "Ice Cream")
  ]

  /** Animation lengths are positive millisecond counts. */
  type Duration = d: int | d > 0 witness 1

  /** Length of the petal-fall animation in milliseconds. */
  const FallDuration: Duration := 2500

  /** The `userData` flags of one clickable petal. */
  datatype Petal = Petal(planIndex: Option<nat>, isClickable: bool, clicked: bool)

  /**
   * An object a ray can hit: the petal at position `k` of `clickablePetals`,
   * or the rose body (the mesh named "rose").
   */
  datatype Target = PetalHit(k: nat) | RoseHit

  /** A running petal-fall animation; timestamps are `Date.now()` milliseconds. */
  datatype Animation = Animation(petal: nat, startTime: int, duration: Duration)

  /** Everything the click logic of a `Rose3D` object reads or writes. */
  datatype RoseState = RoseState(
    hasCanvas: bool,               // the page has the rose canvas
    hasContainer: bool,            // the page has the plan-card container
    isInitialized: bool,
    petals: seq<Petal>,            // clickablePetals
    roseLoaded: bool,              // roseMesh is set
    roseClicked: bool,             // roseMesh.userData.clicked
    clickCount: int,
    revealedPlans: seq<Plan>,
    planCards: seq<int>,           // data-plan-index of the container's children
    animating: seq<Animation>,     // animatingPetals
    hovered: Option<Target>)       // hoveredPetal

  /** The state of a freshly constructed object. */
  function Initial(hasCanvas: bool, hasContainer: bool): RoseState
  {
    RoseState(hasCanvas, hasContainer, false, [], false, false, 0, [], [], [], None)
  }

  // ---------------------------------------------------------------------------
  // Ordered insertion of plan cards

  predicate Sorted(s: seq<int>)
  {
    forall i, j :: 0 <= i < j < |s| ==> s[i] <= s[j]
  }

  /** The position of the first card whose index is strictly greater than `x`. */
  function FirstGreater(cards: seq<int>, x: int): (p: nat)
    ensures p <= |cards|
    ensures forall j :: 0 <= j < p ==> cards[j] <= x
    ensures p < |cards| ==> x < cards[p]
  {
    if cards == [] || x < cards[0] then 0 else 1 + FirstGreater(cards[1..], x)
  }

  /** The container's children after a card with index `x` is added. */
  function OrderedInsert(cards: seq<int>, x: int): seq<int>
  {
    var p := FirstGreater(cards, x);
    cards[..p] + [x] + cards[p..]
  }

  /**
   * The new card sits at any position `p` before which no card is greater and
   * at which (if anywhere) the first greater card stood; the other cards keep
   * their order.
   */
  lemma OrderedInsertPosition(cards: seq<int>, x: int, p: nat)
    requires p <= |cards|
    requires forall j :: 0 <= j < p ==> cards[j] <= x
    requires p < |cards| ==> x < cards[p]
    ensures OrderedInsert(cards, x) == cards[..p] + [x] + cards[p..]
  {
    var q := FirstGreater(cards, x);
    assert q == p;
  }

  /** Element-wise view of an insertion. */
  lemma OrderedInsertAt(cards: seq<int>, x: int)
    ensures |OrderedInsert(cards, x)| == |cards| + 1
    ensures forall i :: 0 <= i < |cards| + 1 ==>
      OrderedInsert(cards, x)[i] ==
        (if i < FirstGreater(cards, x) then cards[i]
         else if i == FirstGreater(cards, x) then x
         else cards[i - 1])
  {
  }

  /** Inserting into a sorted container keeps it sorted. */
  lemma OrderedInsertKeepsSorted(cards: seq<int>, x: int)
    requires Sorted(cards)
    ensures Sorted(OrderedInsert(cards, x))
  {
    var r := OrderedInsert(cards, x);
    var p := FirstGreater(cards, x);
    OrderedInsertAt(cards, x);
    forall i, j | 0 <= i < j < |r|
      ensures r[i] <= r[j]
    {
      if j == p {
        assert r[i] == cards[i];
      } else if i == p {
        assert r[j] == cards[j - 1];
        assert cards[p] <= cards[j - 1];
      }
    }
  }

  /** The container gains exactly the new card and loses none. */
  lemma OrderedInsertAddsOne(cards: seq<int>, x: int)
    ensures multiset(OrderedInsert(cards, x)) == multiset(cards) + multiset{x}
  {
    var p := FirstGreater(cards, x);
    assert cards == cards[..p] + cards[p..];
  }

  // ---------------------------------------------------------------------------
  // Pruning of finished animations

  /** An animation is over once the elapsed time reaches its duration. */
  predicate Finished(a: Animation, now: int)
  {
    now - a.startTime >= a.duration
  }

  /** `Math.min(elapsed / duration, 1)`, in exact arithmetic. */
  function Progress(a: Animation, now: int): real
  {
    var q := (now - a.startTime) as real / a.duration as real;
    if q < 1.0 then q else 1.0
  }

  /** Progress reaches 1 exactly when the animation is finished. */
  lemma ProgressReachesOne(a: Animation, now: int)
    ensures Progress(a, now) <= 1.0
    ensures Progress(a, now) >= 1.0 <==> Finished(a, now)
  {
    var e, d := (now - a.startTime) as real, a.duration as real;
    assert (e / d) * d == e;
    if e >= d {
      assert e / d >= 1.0;
    } else {
      assert e / d < 1.0;
    }
  }

  /** The animations still running at time `now`, in their original order. */
  function Remaining(anims: seq<Animation>, now: int): seq<Animation>
  {
    if anims == [] then []
    else (if Finished(anims[0], now) then [] else [anims[0]]) + Remaining(anims[1..], now)
  }

  /** Exactly the finished entries are dropped; every other entry keeps its multiplicity. */
  lemma {:induction false} RemainingCount(anims: seq<Animation>, now: int, a: Animation)
    ensures multiset(Remaining(anims, now))[a] ==
      if Finished(a, now) then 0 else multiset(anims)[a]
  {
    if anims != [] {
      RemainingCount(anims[1..], now, a);
      assert anims == [anims[0]] + anims[1..];
    }
  }

  /** Pruning commutes with concatenation: the survivors keep their relative order. */
  lemma {:induction false} RemainingAppend(s: seq<Animation>, t: seq<Animation>, now: int)
    ensures Remaining(s + t, now) == Remaining(s, now) + Remaining(t, now)
  {
    if s == [] {
      assert s + t == t;
    } else {
      assert (s + t)[0] == s[0];
      assert (s + t)[1..] == s[1..] + t;
      RemainingAppend(s[1..], t, now);
    }
  }

  /** One step of the backward walk: the entry at `i` is kept or dropped in front of the survivors after it. */
  lemma RemainingStep(anims: seq<Animation>, i: nat, now: int)
    requires i < |anims|
    ensures anims[..i + 1] == anims[..i] + [anims[i]]
    ensures Remaining(anims[i..], now) ==
      (if Finished(anims[i], now) then [] else [anims[i]]) + Remaining(anims[i + 1..], now)
  {
    assert anims[i..][1..] == anims[i + 1..];
  }

  // ---------------------------------------------------------------------------
  // Click progress

  /** `t` names an object that exists in state `s`. */
  predicate IsTarget(s: RoseState, t: Target)
  {
    match t
    case PetalHit(k) => k < |s.petals|
    case RoseHit => s.roseLoaded
  }

  /**
   * `t` is among the objects the ray is cast against: every petal in
   * `clickablePetals`, clicked or not, and the rose body once it is loaded and
   * only while the count is 3.
   */
  predicate IsCandidate(s: RoseState, t: Target)
  {
    match t
    case PetalHit(k) => k < |s.petals|
    case RoseHit => s.clickCount == 3 && s.roseLoaded
  }

  /** The `clicked` flag of `t`. */
  predicate Clicked(s: RoseState, t: Target)
    requires IsTarget(s, t)
  {
    match t
    case PetalHit(k) => s.petals[k].clicked
    case RoseHit => s.roseClicked
  }

  /** `(isClickable || isRoseBody) && !clicked`. */
  predicate Selectable(s: RoseState, t: Target)
    requires IsTarget(s, t)
  {
    match t
    case PetalHit(k) => s.petals[k].isClickable && !s.petals[k].clicked
    case RoseHit => !s.roseClicked
  }

  /** `userData.planIndex`; the rose body has none. */
  function PlanIndexOf(s: RoseState, t: Target): Option<nat>
    requires IsTarget(s, t)
  {
    match t
    case PetalHit(k) => s.petals[k].planIndex
    case RoseHit => None
  }

  /** The fourth click: the count jumps to 4 and the rose is marked clicked. */
  function FourthClick(s: RoseState): RoseState
  {
    s.(clickCount := 4, roseClicked := if s.roseLoaded then true else s.roseClicked)
  }

  /** The effect of `revealPlan(plan)` on the state. */
  function RevealPlan(s: RoseState, plan: Plan): RoseState
  {
    s.(revealedPlans := s.revealedPlans + [plan],
       planCards := if s.hasContainer then OrderedInsert(s.planCards, plan.index) else s.planCards)
  }

  /** The effect of `onPetalClick` on object `t` at time `now`. */
  function PetalClick(s: RoseState, t: Target, now: int): RoseState
    requires IsTarget(s, t)
  {
    if Clicked(s, t) then s
    else if t.RoseHit? && s.clickCount == 3 then FourthClick(s)
    else
      var planIndex := PlanIndexOf(s, t);
      if planIndex.None? || planIndex.value >= |PetalPlans| then s
      else Resolve(s, t.k, planIndex.value, now)
  }

  /** Petal `k` marked clicked and no longer clickable. */
  function MarkClicked(petals: seq<Petal>, k: nat): seq<Petal>
    requires k < |petals|
  {
    petals[k := petals[k].(clicked := true, isClickable := false)]
  }

  /**
   * The resolution of a click on unclicked petal `k` whose plan index `j` is
   * in range: mark the petal, count the click, reveal plan `j`, start the
   * fall, and forget the petal as hovered.
   */
  function Resolve(s: RoseState, k: nat, j: nat, now: int): RoseState
    requires k < |s.petals| && j < |PetalPlans|
  {
    RevealPlan(s.(petals := MarkClicked(s.petals, k),
                  clickCount := s.clickCount + 1,
                  animating := s.animating + [Animation(k, now, FallDuration)],
                  hovered := if s.hovered == Some(PetalHit(k)) then None else s.hovered),
               PetalPlans[j])
  }

  /**
   * The effect of `onMouseClick` when the ray's first hit is `hit`
   * (`None`: the ray met no candidate).
   */
  function MouseClick(s: RoseState, hit: Option<Target>, now: int): RoseState
    requires hit.Some? ==> IsCandidate(s, hit.value)
  {
    match hit
    case None => s
    case Some(t) => if Selectable(s, t) then PetalClick(s, t, now) else s
  }

  /** The bookkeeping of `onMouseMove`: which object is remembered as hovered. */
  function MouseMove(s: RoseState, hit: Option<Target>): RoseState
    requires hit.Some? ==> IsCandidate(s, hit.value)
    requires s.hovered.Some? ==> IsTarget(s, s.hovered.value)
  {
    match hit
    case Some(t) =>
      if Selectable(s, t) && s.hovered != Some(t) then s.(hovered := Some(t)) else s
    case None =>
      if s.hovered.Some? && !Clicked(s, s.hovered.value) then s.(hovered := None) else s
  }

  /** `init`: a no-op when already initialised or when the canvas is missing. */
  function InitStep(s: RoseState): RoseState
  {
    if s.isInitialized || !s.hasCanvas then s else s.(isInitialized := true)
  }

  /** `dispose`: only the initialised flag changes. */
  function DisposeStep(s: RoseState): RoseState
  {
    s.(isInitialized := false)
  }

  /** The three petals `createClickablePetals` makes. */
  const NewPetals: seq<Petal> := [
    Petal(Some(0), true, false),
    Petal(Some(1), true, false),
    Petal(Some(2), true, false)
  ]

  /**
   * The model-load callbacks: the rose body is remembered when the model has a
   * mesh named "rose", then the three petals are appended.
   */
  function ModelLoaded(s: RoseState, roseFound: bool): RoseState
  {
    s.(roseLoaded := if roseFound then true else s.roseLoaded,
       petals := s.petals + NewPetals)
  }

  /** `updateAnimations` at time `now`. */
  function PruneAnimations(s: RoseState, now: int): RoseState
  {
    s.(animating := Remaining(s.animating, now))
  }

  // ---------------------------------------------------------------------------
  // The invariant

  function ClickedSet(petals: seq<Petal>): set<int>
  {
    set i | 0 <= i < |petals| && petals[i].clicked
  }

  /** The indices of the revealed plans, in reveal order. */
  function PlanIndices(plans: seq<Plan>): seq<int>
  {
    seq(|plans|, j requires 0 <= j < |plans| => plans[j].index)
  }

  predicate Distinct(s: seq<int>)
  {
    forall i, j :: 0 <= i < j < |s| ==> s[i] != s[j]
  }

  /** Plan `p` is a table entry whose petal has been clicked. */
  predicate RevealedOk(petals: seq<Petal>, p: Plan)
  {
    p.index < |petals| && p.index < |PetalPlans| && petals[p.index].clicked && p == PetalPlans[p.index]
  }

  /** Petal `i` carries plan `i` and is clickable exactly when unclicked. */
  predicate PetalsOk(petals: seq<Petal>)
  {
    && (|petals| == 0 || |petals| == |PetalPlans|)
    && (forall i :: 0 <= i < |petals| ==>
          petals[i].planIndex == Some(i) && petals[i].isClickable == !petals[i].clicked)
  }

  /** The rose is clicked only after every petal of a loaded model. */
  predicate RoseOk(roseClicked: bool, roseLoaded: bool, petals: seq<Petal>)
  {
    roseClicked ==>
      roseLoaded && |petals| == |PetalPlans| &&
      forall i :: 0 <= i < |petals| ==> petals[i].clicked
  }

  /** The count is the number of clicked petals plus one for the rose. */
  predicate CountOk(clickCount: int, petals: seq<Petal>, roseClicked: bool)
  {
    clickCount == |ClickedSet(petals)| + (if roseClicked then 1 else 0)
  }

  /** The revealed plans are the clicked petals' plans, each once. */
  predicate PlansOk(petals: seq<Petal>, plans: seq<Plan>)
  {
    && |plans| == |ClickedSet(petals)|
    && (forall p :: p in plans ==> RevealedOk(petals, p))
    && (forall i :: i in ClickedSet(petals) ==> i in PlanIndices(plans))
    && Distinct(PlanIndices(plans))
  }

  /** The cards (when there is a container) are the revealed plans in index order. */
  predicate CardsOk(hasContainer: bool, cards: seq<int>, plans: seq<Plan>)
  {
    if hasContainer
    then Sorted(cards) && multiset(cards) == multiset(PlanIndices(plans))
    else cards == []
  }

  /** Every running animation belongs to a clicked petal. */
  predicate AnimationsOk(petals: seq<Petal>, anims: seq<Animation>)
  {
    forall a :: a in anims ==> a.petal < |petals| && petals[a.petal].clicked
  }

  /**
   * What holds of every reachable state: the conjunction of the predicates
   * above, and the hovered object exists.
   */
  ghost predicate Valid(s: RoseState)
  {
    && PetalsOk(s.petals)
    && RoseOk(s.roseClicked, s.roseLoaded, s.petals)
    && CountOk(s.clickCount, s.petals, s.roseClicked)
    && PlansOk(s.petals, s.revealedPlans)
    && CardsOk(s.hasContainer, s.planCards, s.revealedPlans)
    && AnimationsOk(s.petals, s.animating)
    && (s.hovered.Some? ==> IsTarget(s, s.hovered.value))
  }

  /**
   * The clicked set has at most one element per petal, all of them exactly
   * when every petal is clicked.
   */
  lemma {:induction false} ClickedSetSize(petals: seq<Petal>)
    ensures |ClickedSet(petals)| <= |petals|
    ensures forall i :: 0 <= i < |petals| && !petals[i].clicked ==> |ClickedSet(petals)| < |petals|
    ensures (forall i :: 0 <= i < |petals| ==> petals[i].clicked) ==> |ClickedSet(petals)| == |petals|
  {
    if petals != [] {
      var n := |petals| - 1;
      var init := petals[..n];
      ClickedSetSize(init);
      assert n !in ClickedSet(init);
      assert ClickedSet(petals) == ClickedSet(init) + (if petals[n].clicked then {n} else {});
      forall i | 0 <= i < n ensures init[i] == petals[i] { }
    }
  }

  /** At most three petals are clicked; three means every petal of a loaded model. */
  lemma ClickedSetWithin(petals: seq<Petal>)
    requires |petals| <= |PetalPlans|
    ensures |ClickedSet(petals)| <= 3
    ensures |ClickedSet(petals)| == 3 ==> |petals| == 3 && forall i :: 0 <= i < |petals| ==> petals[i].clicked
    ensures (forall i :: 0 <= i < |petals| ==> petals[i].clicked) ==> |ClickedSet(petals)| == |petals|
  {
    ClickedSetSize(petals);
  }

  /** Clicking one more petal adds exactly its position to the clicked set. */
  lemma ClickedSetAfterClick(petals: seq<Petal>, k: nat)
    requires k < |petals| && !petals[k].clicked
    ensures ClickedSet(MarkClicked(petals, k)) == ClickedSet(petals) + {k}
    ensures k !in ClickedSet(petals)
    ensures |ClickedSet(MarkClicked(petals, k))| == |ClickedSet(petals)| + 1
  {
    assert ClickedSet(MarkClicked(petals, k)) == ClickedSet(petals) + {k};
  }

  /** A fresh object is in a valid state. */
  lemma InitialValid(hasCanvas: bool, hasContainer: bool)
    ensures Valid(Initial(hasCanvas, hasContainer))
  {
    assert ClickedSet([]) == {};
  }

  /** The click counter stays in 0..4, and is 4 exactly when the rose was clicked. */
  lemma ClickCountBounds(s: RoseState)
    requires Valid(s)
    ensures 0 <= s.clickCount <= 4
    ensures s.clickCount == 4 <==> s.roseClicked
    ensures |s.revealedPlans| <= |PetalPlans|
    ensures Distinct(PlanIndices(s.revealedPlans))
  {
    ClickedSetWithin(s.petals);
  }

  /** A click on an object already marked clicked changes nothing. */
  lemma ClickedTargetIgnored(s: RoseState, t: Target, now: int)
    requires IsTarget(s, t) && Clicked(s, t)
    ensures PetalClick(s, t, now) == s
    ensures IsCandidate(s, t) ==> MouseClick(s, Some(t), now) == s
  {
  }

  /** A hit whose plan index is missing or out of range changes nothing. */
  lemma InvalidPlanIndexIgnored(s: RoseState, t: Target, now: int)
    requires IsTarget(s, t) && !(t.RoseHit? && s.clickCount == 3)
    requires PlanIndexOf(s, t).None? || PlanIndexOf(s, t).value >= |PetalPlans|
    ensures PetalClick(s, t, now) == s
  {
  }

  /**
   * A click on an unclicked petal in a valid state marks it clicked and no
   * longer clickable, adds one to the count and to the clicked set, appends
   * that petal's plan, inserts its card in order, starts its fall, and forgets
   * it as hovered; the rose is untouched.
   */
  lemma PetalClickEffect(s: RoseState, k: nat, now: int)
    requires Valid(s) && k < |s.petals| && !s.petals[k].clicked
    ensures var s' := PetalClick(s, PetalHit(k), now);
      && s'.petals[k].clicked && !s'.petals[k].isClickable
      && (forall i :: 0 <= i < |s.petals| && i != k ==> s'.petals[i] == s.petals[i])
      && |s'.petals| == |s.petals|
      && s'.clickCount == s.clickCount + 1
      && ClickedSet(s'.petals) == ClickedSet(s.petals) + {k}
      && s'.revealedPlans == s.revealedPlans + [PetalPlans[k]]
      && (s.hasContainer ==> s'.planCards == OrderedInsert(s.planCards, k))
      && s'.animating == s.animating + [Animation(k, now, FallDuration)]
      && (s.hovered == Some(PetalHit(k)) ==> s'.hovered == None)
      && (s.hovered != Some(PetalHit(k)) ==> s'.hovered == s.hovered)
      && s'.roseClicked == s.roseClicked && s'.roseLoaded == s.roseLoaded
  {
    ClickedSetAfterClick(s.petals, k);
  }

  /**
   * The rose body can only be clicked at count 3: a click that newly marks the
   * rose clicked came from count 3, leaves the count at 4, and reveals no plan.
   * Called directly at any other count, a rose click changes nothing.
   */
  lemma RoseClickOnlyAtThree(s: RoseState, hit: Option<Target>, now: int)
    requires hit.Some? ==> IsCandidate(s, hit.value)
    ensures var s' := MouseClick(s, hit, now);
      !s.roseClicked && s'.roseClicked ==>
        && s.clickCount == 3 && s'.clickCount == 4
        && s'.revealedPlans == s.revealedPlans && s'.petals == s.petals
        && s'.planCards == s.planCards
    ensures s.roseLoaded && s.clickCount != 3 ==> PetalClick(s, RoseHit, now) == s
  {
    if hit.Some? && hit.value.PetalHit? {
      var k := hit.value.k;
      if Selectable(s, hit.value) {
        assert !Clicked(s, hit.value);
      }
    }
  }

  /**
   * In a valid state at count 3 with the rose loaded, a mouse click on the
   * rose body sets the count to 4 and marks the rose clicked; nothing else
   * changes.
   */
  lemma RoseClickAtThree(s: RoseState, now: int)
    requires Valid(s) && s.clickCount == 3 && s.roseLoaded
    ensures MouseClick(s, Some(RoseHit), now) == s.(clickCount := 4, roseClicked := true)
  {
    ClickCountBounds(s);
  }

  /**
   * The fourth click keeps the state valid when it is taken as `onPetalClick`
   * takes it: at count 3, on a loaded rose.
   */
  lemma FourthClickKeepsValid(s: RoseState)
    requires Valid(s) && s.clickCount == 3 && s.roseLoaded
    ensures Valid(FourthClick(s))
  {
    ClickedSetWithin(s.petals);
  }

  /** A click keeps the state valid. */
  lemma PetalClickKeepsValid(s: RoseState, t: Target, now: int)
    requires Valid(s) && IsTarget(s, t)
    ensures Valid(PetalClick(s, t, now))
  {
    var s' := PetalClick(s, t, now);
    if Clicked(s, t) {
    } else if t.RoseHit? && s.clickCount == 3 {
      FourthClickKeepsValid(s);
    } else if t.PetalHit? {
      ResolvedPetalKeepsValid(s, t.k, now);
    }
  }

  /** Resolving an unclicked petal with its own plan keeps each part of the invariant. */
  lemma ResolvedPetalKeepsValid(s: RoseState, k: nat, now: int)
    requires Valid(s) && k < |s.petals| && !s.petals[k].clicked
    ensures s.petals[k].planIndex == Some(k)
    ensures k < |PetalPlans| && Valid(Resolve(s, k, k, now))
  {
    var s' := Resolve(s, k, k, now);
    ClickedSetAfterClick(s.petals, k);
    PetalsAfterClick(s.petals, k);
    PlansAfterClick(s.petals, s.revealedPlans, k);
    CardsAfterClick(s.hasContainer, s.planCards, s.revealedPlans, PetalPlans[k]);
    AnimationsAfterClick(s.petals, s.animating, k, now);
  }

  /** Marking a petal clicked keeps every petal's flags consistent. */
  lemma PetalsAfterClick(petals: seq<Petal>, k: nat)
    requires PetalsOk(petals) && k < |petals|
    ensures PetalsOk(MarkClicked(petals, k))
  {
  }

  /** Inserting the card of plan `p` keeps the cards sorted and in step with the plans. */
  lemma CardsAfterClick(hasContainer: bool, cards: seq<int>, plans: seq<Plan>, p: Plan)
    requires CardsOk(hasContainer, cards, plans)
    ensures CardsOk(hasContainer, if hasContainer then OrderedInsert(cards, p.index) else cards, plans + [p])
  {
    if hasContainer {
      OrderedInsertKeepsSorted(cards, p.index);
      OrderedInsertAddsOne(cards, p.index);
      assert PlanIndices(plans + [p]) == PlanIndices(plans) + [p.index];
    }
  }

  /** The new fall belongs to the petal just clicked. */
  lemma AnimationsAfterClick(petals: seq<Petal>, anims: seq<Animation>, k: nat, now: int)
    requires AnimationsOk(petals, anims) && k < |petals|
    ensures AnimationsOk(MarkClicked(petals, k), anims + [Animation(k, now, FallDuration)])
  {
  }

  /** Revealing petal `k`'s plan as that petal is clicked keeps the plans consistent. */
  lemma PlansAfterClick(petals: seq<Petal>, plans: seq<Plan>, k: nat)
    requires PetalsOk(petals) && PlansOk(petals, plans)
    requires k < |petals| && !petals[k].clicked
    ensures PlansOk(MarkClicked(petals, k), plans + [PetalPlans[k]])
  {
    var petals' := MarkClicked(petals, k);
    var plans' := plans + [PetalPlans[k]];
    ClickedSetAfterClick(petals, k);
    var ix, ix' := PlanIndices(plans), PlanIndices(plans');
    assert ix' == ix + [k];
    forall j | 0 <= j < |ix| ensures ix[j] != k {
      assert plans[j] in plans;
    }
    forall p | p in plans' ensures RevealedOk(petals', p) {
      if p in plans {
        assert RevealedOk(petals, p);
      }
    }
  }

  /** A mouse click keeps the state valid. */
  lemma MouseClickKeepsValid(s: RoseState, hit: Option<Target>, now: int)
    requires Valid(s) && (hit.Some? ==> IsCandidate(s, hit.value))
    ensures Valid(MouseClick(s, hit, now))
  {
    if hit.Some? && Selectable(s, hit.value) {
      PetalClickKeepsValid(s, hit.value, now);
    }
  }

  /** Each mouse click leaves the count unchanged or raises it by exactly one (the fourth click goes from 3 to 4). */
  lemma MouseClickCountStep(s: RoseState, hit: Option<Target>, now: int)
    requires hit.Some? ==> IsCandidate(s, hit.value)
    ensures var c := MouseClick(s, hit, now).clickCount;
      c == s.clickCount || c == s.clickCount + 1
  {
  }

  /** Count 4 is final: no later click changes anything. */
  lemma FourIsAbsorbing(s: RoseState, t: Target, hit: Option<Target>, now: int)
    requires Valid(s) && s.clickCount == 4
    requires IsTarget(s, t)
    requires hit.Some? ==> IsCandidate(s, hit.value)
    ensures PetalClick(s, t, now) == s
    ensures MouseClick(s, hit, now) == s
  {
    ClickCountBounds(s);
  }

  /** Once all three plans are revealed, the cards read 0, 1, 2. */
  lemma AllCardsInOrder(s: RoseState)
    requires Valid(s) && s.hasContainer && s.clickCount >= 3
    ensures s.planCards == [0, 1, 2]
  {
    ClickedSetWithin(s.petals);
    var ix := PlanIndices(s.revealedPlans);
    assert |ClickedSet(s.petals)| == 3;
    assert forall i :: 0 <= i < 3 ==> i in ClickedSet(s.petals);
    assert 0 in ix && 1 in ix && 2 in ix;
    assert |ix| == 3;
    var m := multiset(ix);
    assert multiset{0, 1, 2} <= m;
    assert |m| == 3;
    assert m == multiset{0, 1, 2} by {
      MultisetSubsetEqual(multiset{0, 1, 2}, m);
    }
    var c := s.planCards;
    assert multiset(c) == multiset{0, 1, 2};
    assert |c| == 3;
    SortedOfZeroOneTwo(c);
  }

  lemma MultisetSubsetEqual(a: multiset<int>, b: multiset<int>)
    requires a <= b && |a| == |b|
    ensures a == b
  {
    var d := b - a;
    assert b == a + d;
    assert |d| == 0;
  }

  lemma SortedOfZeroOneTwo(c: seq<int>)
    requires Sorted(c) && multiset(c) == multiset{0, 1, 2}
    ensures c == [0, 1, 2]
  {
    assert |c| == 3;
    assert c == [c[0], c[1], c[2]];
    assert multiset(c) == multiset{c[0], c[1], c[2]};
    assert c[0] in multiset{0, 1, 2} && c[2] in multiset{0, 1, 2};
    assert 0 in multiset(c) && 2 in multiset(c);
    assert c[0] == 0;
    assert c[2] == 2;
    assert multiset{c[1]} == multiset(c) - multiset{0, 2} == multiset{1};
  }

  /** Hover bookkeeping keeps the state valid; leaving every candidate forgets an unclicked hover. */
  lemma MouseMoveKeepsValid(s: RoseState, hit: Option<Target>)
    requires Valid(s) && (hit.Some? ==> IsCandidate(s, hit.value))
    ensures Valid(MouseMove(s, hit))
    ensures hit.None? && s.hovered.Some? && !Clicked(s, s.hovered.value) ==> MouseMove(s, hit).hovered == None
    ensures hit.Some? && Selectable(s, hit.value) ==> MouseMove(s, hit).hovered == hit
    ensures MouseMove(s, hit).(hovered := s.hovered) == s
  {
    var h := MouseMove(s, hit).hovered;
    assert h.Some? ==> IsTarget(s, h.value);
    HoverKeepsValid(s, h);
    assert MouseMove(s, hit) == s.(hovered := h);
  }

  /** Remembering any existing object, or none, as hovered keeps the state valid. */
  lemma HoverKeepsValid(s: RoseState, h: Option<Target>)
    requires Valid(s) && (h.Some? ==> IsTarget(s, h.value))
    ensures Valid(s.(hovered := h))
  {
  }

  /** `init` is idempotent and `dispose` clears the flag; neither touches the click state. */
  lemma InitDisposeFlags(s: RoseState)
    requires Valid(s)
    ensures s.isInitialized ==> InitStep(s) == s
    ensures InitStep(s).isInitialized == (s.isInitialized || s.hasCanvas)
    ensures InitStep(InitStep(s)) == InitStep(s)
    ensures !DisposeStep(s).isInitialized
    ensures Valid(InitStep(s)) && Valid(DisposeStep(s))
    ensures InitStep(DisposeStep(s)).isInitialized == s.hasCanvas
    ensures InitStep(s).(isInitialized := s.isInitialized) == s
    ensures DisposeStep(s).(isInitialized := s.isInitialized) == s
  {
  }

  /** Loading the model into an object without petals yields three unclicked petals. */
  lemma ModelLoadedKeepsValid(s: RoseState, roseFound: bool)
    requires Valid(s) && |s.petals| == 0
    ensures Valid(ModelLoaded(s, roseFound))
    ensures var s' := ModelLoaded(s, roseFound);
      |s'.petals| == 3 && ClickedSet(s'.petals) == {} && s'.clickCount == 0
  {
    var s' := ModelLoaded(s, roseFound);
    assert s'.petals == NewPetals;
    assert ClickedSet(s.petals) == {};
    assert ClickedSet(NewPetals) == {};
  }

  /** Pruning keeps the state valid and drops exactly the finished animations. */
  lemma PruneKeepsValid(s: RoseState, now: int)
    requires Valid(s)
    ensures Valid(PruneAnimations(s, now))
    ensures forall a :: a in PruneAnimations(s, now).animating <==> a in s.animating && !Finished(a, now)
  {
    forall a ensures a in Remaining(s.animating, now) <==> a in s.animating && !Finished(a, now) {
      RemainingCount(s.animating, now, a);
    }
  }
}
