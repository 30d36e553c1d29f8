/**
 * The `Rose3D` object of rose3d.js: the fields its event handlers update in
 * place, and those handlers as methods.  Each method is proved to take the
 * step that module RoseModel defines, and every event handler except
 * `OnPetalClick` to keep that module's invariant (for `OnPetalClick` that is
 * lemma RoseModel.PetalClickKeepsValid).
 * Rendering, ray casting and the DOM are outside the model: the ray's first
 * hit arrives as a parameter, and the page's canvas and card container are
 * present or absent from construction on.
 */
module Rose {
  import opened Common
  import opened RoseModel

  class Rose3D {
    const hasCanvas: bool
    const hasContainer: bool
    var isInitialized: bool
    var clickablePetals: seq<Petal>
    var roseLoaded: bool
    var roseClicked: bool
    var clickCount: int
    var revealedPlans: seq<Plan>
    var planCards: seq<int>
    var animatingPetals: seq<Animation>
    var hoveredPetal: Option<Target>

    /** The fields as one value. */
    function State(): RoseState
      reads this
    {
      RoseState(hasCanvas, hasContainer, isInitialized, clickablePetals, roseLoaded,
                roseClicked, clickCount, revealedPlans, planCards, animatingPetals, hoveredPetal)
    }

    constructor (hasCanvas: bool, hasContainer: bool)
      ensures State() == Initial(hasCanvas, hasContainer)
      ensures Valid(State())
    {
      this.hasCanvas := hasCanvas;
      this.hasContainer := hasContainer;
      clickablePetals := [];
      roseLoaded, roseClicked := false, false;
      hoveredPetal := None;
      animatingPetals := [];
      revealedPlans := [];
      planCards := [];
      clickCount := 0;
      isInitialized := false;
      new;
      InitialValid(hasCanvas, hasContainer);
    }

    /** Sets up the scene once; a second call while initialised does nothing. */
    method Init()
      requires Valid(State())
      modifies this
      ensures State() == InitStep(old(State()))
      ensures Valid(State())
    {
      if isInitialized {
        return;
      }
      if !hasCanvas {
        return;
      }
      isInitialized := true;
      InitDisposeFlags(old(State()));
    }

    /** Releases the renderer; only the initialised flag changes. */
    method Dispose()
      requires Valid(State())
      modifies this
      ensures State() == DisposeStep(old(State()))
      ensures Valid(State())
    {
      isInitialized := false;
      InitDisposeFlags(old(State()));
    }

    /**
     * The model-load callbacks: remember the rose body when the model has one,
     * then create the three clickable petals.
     */
    method OnModelLoaded(roseFound: bool)
      requires Valid(State()) && |clickablePetals| == 0
      modifies this
      ensures State() == ModelLoaded(old(State()), roseFound)
      ensures Valid(State())
    {
      if roseFound {
        roseLoaded := true;
      }
      CreateClickablePetals();
      ModelLoadedKeepsValid(old(State()), roseFound);
    }

    /** Appends one petal per plan, petal `i` carrying plan index `i`. */
    method CreateClickablePetals()
      modifies this
      ensures State() == old(State()).(petals := old(clickablePetals) + NewPetals)
    {
      for index := 0 to 3
        invariant clickablePetals == old(clickablePetals) + NewPetals[..index]
        invariant State() == old(State()).(petals := clickablePetals)
      {
        clickablePetals := clickablePetals + [Petal(Some(index), true, false)];
      }
    }

    /** Remembers which candidate the pointer is over. */
    method OnMouseMove(hit: Option<Target>)
      requires Valid(State())
      requires hit.Some? ==> IsCandidate(State(), hit.value)
      modifies this
      ensures State() == MouseMove(old(State()), hit)
      ensures Valid(State())
    {
      MouseMoveKeepsValid(State(), hit);
      if hit.Some? {
        var t := hit.value;
        if Selectable(State(), t) && hoveredPetal != Some(t) {
          hoveredPetal := Some(t);
        }
      } else if hoveredPetal.Some? && !Clicked(State(), hoveredPetal.value) {
        hoveredPetal := None;
      }
    }

    /** A click whose ray first meets `hit` (`None`: no candidate) at time `now`. */
    method OnMouseClick(hit: Option<Target>, now: int)
      requires Valid(State())
      requires hit.Some? ==> IsCandidate(State(), hit.value)
      modifies this
      ensures State() == MouseClick(old(State()), hit, now)
      ensures Valid(State())
    {
      MouseClickKeepsValid(State(), hit, now);
      if hit.Some? {
        var t := hit.value;
        if Selectable(State(), t) {
          OnPetalClick(t, now);
        }
      }
    }

    /**
     * Resolves a click on object `t`.  That this keeps `Valid` is lemma
     * PetalClickKeepsValid of module RoseModel.
     */
    method OnPetalClick(t: Target, now: int)
      requires IsTarget(State(), t)
      modifies this
      ensures State() == PetalClick(old(State()), t, now)
    {
      if Clicked(State(), t) {
        return;
      }
      if t.RoseHit? && clickCount == 3 {
        OnFourthClick();
        return;
      }
      var planIndex := if t.PetalHit? then clickablePetals[t.k].planIndex else None;
      if planIndex.None? || planIndex.value >= |PetalPlans| {
        return;
      }
      var k := t.k;
      clickablePetals := clickablePetals[k := clickablePetals[k].(clicked := true, isClickable := false)];
      clickCount := clickCount + 1;
      RevealPlan(PetalPlans[planIndex.value]);
      AnimatePetalFall(k, now);
      if hoveredPetal == Some(t) {
        hoveredPetal := None;
      }
    }

    /** The fourth click, on the rose body. */
    method OnFourthClick()
      modifies this
      ensures State() == FourthClick(old(State()))
    {
      clickCount := 4;
      if roseLoaded {
        roseClicked := true;
      }
    }

    /**
     * Records `plan` and adds its card before the first card with a greater
     * index, or at the end.
     */
    method RevealPlan(plan: Plan)
      modifies this
      ensures State() == RoseModel.RevealPlan(old(State()), plan)
    {
      revealedPlans := revealedPlans + [plan];
      if !hasContainer {
        return;
      }
      var existingCards := planCards;
      var inserted := false;
      var i := 0;
      while i < |existingCards|
        invariant 0 <= i <= |existingCards|
        invariant !inserted && planCards == existingCards
        invariant forall j :: 0 <= j < i ==> existingCards[j] <= plan.index
      {
        if plan.index < existingCards[i] {
          planCards := existingCards[..i] + [plan.index] + existingCards[i..];
          inserted := true;
          break;
        }
        i := i + 1;
      }
      if !inserted {
        planCards := planCards + [plan.index];
      }
      OrderedInsertPosition(existingCards, plan.index, i);
    }

    /** Starts the fall of petal `k` at time `now`. */
    method AnimatePetalFall(k: nat, now: int)
      modifies this
      ensures State() == old(State()).(animating := old(animatingPetals) + [Animation(k, now, FallDuration)])
    {
      animatingPetals := animatingPetals + [Animation(k, now, FallDuration)];
    }

    /** The per-frame update of the running petal-fall animations. */
    method UpdateAnimations(now: int)
      requires Valid(State())
      modifies this
      ensures State() == PruneAnimations(old(State()), now)
      ensures Valid(State())
    {
      RemoveFinished(now);
      PruneKeepsValid(old(State()), now);
    }

    /**
     * The loop of the per-frame update: walks the animations from the last to
     * the first and splices out each one whose progress has reached 1.
     */
    method RemoveFinished(now: int)
      modifies this`animatingPetals
      ensures animatingPetals == Remaining(old(animatingPetals), now)
    {
      ghost var anims := animatingPetals;
      var i := |animatingPetals| - 1;
      while i >= 0
        invariant -1 <= i < |anims|
        invariant animatingPetals == anims[..i + 1] + Remaining(anims[i + 1..], now)
      {
        ghost var rest := Remaining(anims[i + 1..], now);
        assert animatingPetals[i] == anims[i];
        var anim := animatingPetals[i];
        var progress := Progress(anim, now);
        ProgressReachesOne(anim, now);
        RemainingStep(anims, i, now);
        if progress >= 1.0 {
          assert animatingPetals[..i] == anims[..i];
          assert animatingPetals[i + 1..] == rest;
          animatingPetals := animatingPetals[..i] + animatingPetals[i + 1..];
          assert Remaining(anims[i..], now) == rest;
        } else {
          assert Remaining(anims[i..], now) == [anims[i]] + rest;
          assert animatingPetals == anims[..i] + ([anims[i]] + rest);
        }
        i := i - 1;
      }
      assert anims[0..] == anims;
    }
  }
}
