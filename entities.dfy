/** The game-side state holders: the state and weapon enumerations, the
    frame queue of an animation, and the two owners of animation maps. A
    shared_ptr becomes a possibly-null reference, and a
    std::map<GameObjectState, shared_ptr<Animation>> a Dafny map. */
module Entities {

  import opened Sprites

  /** GameObjectState, with the numbers the C++ enumeration gives it. */
  datatype GameObjectState = NONE | Idle | Attack | Death | Walk | IdleDepth | Damage
  {
    function Value(): (v: int)
      ensures 0 <= v <= 6
      ensures v == 0 <==> this == NONE
    {
      match this
      case NONE => 0
      case Idle => 1
      case Attack => 2
      case Death => 3
      case Walk => 4
      case IdleDepth => 5
      case Damage => 6
    }
  }

  /** The state an enumerator number names, if any. */
  function StateOf(v: int): (s: Option<GameObjectState>)
    ensures s.Some? <==> 0 <= v <= 6
    ensures s.Some? ==> s.value.Value() == v
  {
    if v == 0 then Some(NONE)
    else if v == 1 then Some(Idle)
    else if v == 2 then Some(Attack)
    else if v == 3 then Some(Death)
    else if v == 4 then Some(Walk)
    else if v == 5 then Some(IdleDepth)
    else if v == 6 then Some(Damage)
    else None
  }

  datatype Option<T> = None | Some(value: T)

  /** The enumerator numbers are distinct, so each state is recovered from its
      number. */
  lemma StateValueRoundTrip(s: GameObjectState)
    ensures StateOf(s.Value()) == Some(s)
  {
  }

  lemma StateValueInjective(s: GameObjectState, t: GameObjectState)
    ensures s.Value() == t.Value() <==> s == t
  {
  }

  /** WeaponType: Cold = 0, FireArm = 1. */
  datatype WeaponType = Cold | FireArm
  {
    function Value(): (v: int)
      ensures v == 0 <==> this == Cold
      ensures v == 1 <==> this == FireArm
    {
      match this
      case Cold => 0
      case FireArm => 1
    }
  }

  /** An animation: a queue of frames, the last frame assigned, and the
      playback flags. The base class never plays: Play hands back the last
      frame assigned. */
  class Animation {
    var Frames: seq<Sprite?>
    var isPlaying: bool
    var isPlayedAllCicle: bool
    var isDelayed: bool
    var frameCount: int
    var previousSprite: Sprite?

    /** The last frame pushed is the one remembered; with no frames it is
        the null pointer the field starts as. */
    ghost predicate Valid()
      reads this
    {
      if Frames == [] then previousSprite == null else previousSprite == Frames[|Frames| - 1]
    }

    /** The member initialisers: no frames and every flag and count clear. */
    constructor ()
      ensures Valid() && IsEmpty() && !IsPlaing()
      ensures Frames == [] && previousSprite == null
      ensures !isPlaying && !isPlayedAllCicle && !isDelayed && frameCount == 0
    {
      Frames := [];
      isPlaying := false;
      isPlayedAllCicle := false;
      isDelayed := false;
      frameCount := 0;
      previousSprite := null;
    }

    function IsPlaing(): bool
      reads this
    {
      isPlaying
    }

    /** Empty exactly when no frame was ever assigned, and then there is no
        current sprite. */
    function IsEmpty(): (e: bool)
      requires Valid()
      reads this
      ensures e <==> Frames == []
      ensures e ==> previousSprite == null
    {
      |Frames| == 0
    }

    /** The current sprite is the frame assigned last, or null before any. */
    function GetCurrentSprite(): (s: Sprite?)
      requires Valid()
      reads this
      ensures Frames == [] ==> s == null
      ensures Frames != [] ==> s == Frames[|Frames| - 1]
    {
      previousSprite
    }

    /** The base class's Play ignores its arguments, changes nothing and
        hands back the frame assigned last. */
    method Play(objWidth: int, objHeight: int, elapsedTime: real, animationSpeed: real, force: bool)
      returns (s: Sprite?)
      requires Valid()
      ensures Frames == [] ==> s == null
      ensures Frames != [] ==> s == Frames[|Frames| - 1]
    {
      s := previousSprite;
    }

    method DeleyedStart(delayed: bool)
      modifies this
      ensures isDelayed == delayed
      ensures Frames == old(Frames) && previousSprite == old(previousSprite)
      ensures isPlaying == old(isPlaying) && isPlayedAllCicle == old(isPlayedAllCicle)
      ensures frameCount == old(frameCount)
    {
      isDelayed := delayed;
    }

    /** AssignFrame pushes the sprite at the back of the queue and makes it the
        current one. */
    method AssignFrame(sprite: Sprite?)
      requires Valid()
      modifies this
      ensures Valid() && !IsEmpty() && GetCurrentSprite() == sprite
      ensures Frames == old(Frames) + [sprite] && previousSprite == sprite
      ensures isPlaying == old(isPlaying) && isPlayedAllCicle == old(isPlayedAllCicle)
      ensures isDelayed == old(isDelayed) && frameCount == old(frameCount)
    {
      Frames := Frames + [sprite];
      previousSprite := sprite;
    }
  }

  /** std::map::operator[]: the value stored under the key, after inserting a
      null pointer under a key that was absent. The pair is the new map and
      the value read. */
  function Subscript(m: map<GameObjectState, Animation?>, k: GameObjectState): (r: (map<GameObjectState, Animation?>, Animation?))
    ensures r.0.Keys == m.Keys + {k}
    ensures forall j :: j in m ==> j in r.0 && r.0[j] == m[j]
    ensures k !in m ==> r.0[k] == null
    ensures r.1 == r.0[k]
  {
    var m' := if k in m then m else m[k := null];
    (m', m'[k])
  }

  /** A second subscript with the same key finds the entry the first left
      and inserts nothing more. */
  lemma SubscriptIdempotent(m: map<GameObjectState, Animation?>, k: GameObjectState)
    ensures Subscript(Subscript(m, k).0, k) == Subscript(m, k)
  {
  }

  /** A game object's animation table and current state. The position and
      velocity fields are floats and are not part of this model; the current
      state is never initialised by the C++ constructor, so here it is an
      argument. */
  class GameObject {
    var Animations: map<GameObjectState, Animation?>
    var CurrentState: GameObjectState
    var remove: bool

    constructor (initial: GameObjectState)
      ensures Animations == map[] && CurrentState == initial && !remove
    {
      Animations := map[];
      CurrentState := initial;
      remove := false;
    }

    function GetCurrentState(): GameObjectState
      reads this
    {
      CurrentState
    }

    /** NONE is refused: the state stays as it was. Any other state is
        stored, so once a real state is set the object never returns to
        NONE. */
    method SetCurrentState(state: GameObjectState)
      modifies this
      ensures GetCurrentState() == if state == NONE then old(CurrentState) else state
      ensures old(CurrentState) != NONE ==> GetCurrentState() != NONE
      ensures Animations == old(Animations) && remove == old(remove)
    {
      if state == NONE {
        return;
      }
      CurrentState := state;
    }

    /** NONE gets a fresh, empty animation and leaves the table alone; any
        other state is looked up with operator[], which inserts a null entry
        when the state has none. */
    method GetAnimation(state: GameObjectState) returns (a: Animation?)
      modifies this
      ensures state == NONE ==> a != null && fresh(a) && a.Valid() && a.IsEmpty() && Animations == old(Animations)
      ensures state != NONE ==> (Animations, a) == Subscript(old(Animations), state)
      ensures CurrentState == old(CurrentState) && remove == old(remove)
    {
      if state == NONE {
        a := new Animation();
        return;
      }
      var r := Subscript(Animations, state);
      Animations := r.0;
      a := r.1;
    }

    /** The same lookup for the current state. */
    method GetAnimationByCurrentState() returns (a: Animation?)
      modifies this
      ensures CurrentState == NONE ==> a != null && fresh(a) && a.Valid() && a.IsEmpty() && Animations == old(Animations)
      ensures CurrentState != NONE ==> (Animations, a) == Subscript(old(Animations), CurrentState)
      ensures CurrentState == old(CurrentState) && remove == old(remove)
    {
      if CurrentState == NONE {
        a := new Animation();
        return;
      }
      var r := Subscript(Animations, CurrentState);
      Animations := r.0;
      a := r.1;
    }
  }

  /** A weapon's animation table and the animation its last trigger started.
      Type has no initialiser in the C++ class, so here it is an argument. */
  class Weapon {
    var Type: WeaponType
    var Animations: map<GameObjectState, Animation?>
    var CurrentAnimation: Animation?

    constructor (kind: WeaponType)
      ensures Type == kind && Animations == map[] && CurrentAnimation == null
    {
      Type := kind;
      Animations := map[];
      CurrentAnimation := null;
    }

    /** operator[] on the table: the key set grows by at most the state, and
        no existing entry changes. */
    method GetAnimation(state: GameObjectState) returns (a: Animation?)
      modifies this
      ensures (Animations, a) == Subscript(old(Animations), state)
      ensures Type == old(Type) && CurrentAnimation == old(CurrentAnimation)
    {
      var r := Subscript(Animations, state);
      Animations := r.0;
      a := r.1;
    }

    function GetCurrentAnimation(): Animation?
      reads this
    {
      CurrentAnimation
    }

    /** The animation stored for the state becomes the current one and is
        marked delayed; the C++ code dereferences it, so the entry must exist
        and be non-null. Nothing else about that animation changes. */
    method OnMouseButtonDown(state: GameObjectState)
      requires state in Animations && Animations[state] != null
      modifies this, Animations[state]
      ensures Animations == old(Animations) && Type == old(Type)
      ensures GetCurrentAnimation() == old(Animations[state])
      ensures CurrentAnimation != null && CurrentAnimation.isDelayed
      ensures var a := old(Animations[state]);
              a.Frames == old(a.Frames) && a.previousSprite == old(a.previousSprite) &&
              a.isPlaying == old(a.isPlaying) && a.isPlayedAllCicle == old(a.isPlayedAllCicle) &&
              a.frameCount == old(a.frameCount)
    {
      var r := Subscript(Animations, state);
      Animations := r.0;
      CurrentAnimation := r.1;
      CurrentAnimation.DeleyedStart(true);
    }
  }
}
