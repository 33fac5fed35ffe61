/**
 * The scene stack of the pong game: a stack of scenes whose top one is
 * active, and the four transitions a scene can ask for after an update or a
 * draw. Scenes are opaque values here; what a scene does when it is updated
 * or drawn is supplied by the caller as a function from the active scene to
 * its outcome (a transition, or an error that is passed on).
 */
module Scenes {
  import Wrappers

  /** A scene, identified only by what it is. */
  datatype Scene = TitleScene(title: string) | GameScene(id: nat) | PauseScene(id: nat)

  /** What a scene asks for after it ran (`enum Transition`). */
  datatype Transition = None | Push(scene: Scene) | Pop | NewGame(scene: Scene)

  /** The stack after `update` handled transition `t` of the top scene. */
  function AfterUpdate(stack: seq<Scene>, t: Transition): (s: seq<Scene>)
    requires stack != []
  {
    match t
    case None => stack
    case Push(scene) => stack + [scene]
    case Pop => stack[..|stack| - 1]
    case NewGame(scene) => [scene]
  }

  /** The stack after `draw` handled transition `t`: here a new game only
      replaces the top scene. */
  function AfterDraw(stack: seq<Scene>, t: Transition): (s: seq<Scene>)
    requires stack != []
  {
    match t
    case None => stack
    case Push(scene) => stack + [scene]
    case Pop => stack[..|stack| - 1]
    case NewGame(scene) => stack[..|stack| - 1] + [scene]
  }

  /** None keeps the stack; Push adds one scene on top; Pop removes the top scene and
      keeps the rest; after `update`, a new game leaves only the new scene. */
  lemma UpdateTransitions(stack: seq<Scene>, t: Transition)
    requires stack != []
    ensures t.None? ==> AfterUpdate(stack, t) == stack
    ensures t.Push? ==>
      (|AfterUpdate(stack, t)| == |stack| + 1 && AfterUpdate(stack, t)[|stack|] == t.scene &&
       AfterUpdate(stack, t)[..|stack|] == stack)
    ensures t.Pop? ==> |AfterUpdate(stack, t)| == |stack| - 1 && stack == AfterUpdate(stack, t) + [stack[|stack| - 1]]
    ensures t.NewGame? ==> AfterUpdate(stack, t) == [t.scene]
  {
  }

  /** After `draw`, a new game replaces the top scene: the length and every scene
      below the top are kept. */
  lemma DrawNewGameReplacesTop(stack: seq<Scene>, scene: Scene)
    requires stack != []
    ensures |AfterDraw(stack, NewGame(scene))| == |stack|
    ensures forall i :: 0 <= i < |stack| - 1 ==> AfterDraw(stack, NewGame(scene))[i] == stack[i]
    ensures AfterDraw(stack, NewGame(scene))[|stack| - 1] == scene
  {
  }

  /** `update` and `draw` handle every transition but a new game alike, and agree
      on a new game exactly when the stack holds one scene. */
  lemma UpdateDrawAgree(stack: seq<Scene>, t: Transition)
    requires stack != []
    ensures !t.NewGame? ==> AfterUpdate(stack, t) == AfterDraw(stack, t)
    ensures t.NewGame? ==> (AfterUpdate(stack, t) == AfterDraw(stack, t) <==> |stack| == 1)
  {
    if t.NewGame? && AfterUpdate(stack, t) == AfterDraw(stack, t) {
      assert |AfterDraw(stack, t)| == |stack|;
    }
  }

  /** A pushed scene that pops itself gives back the stack it was pushed on. */
  lemma PushThenPop(stack: seq<Scene>, scene: Scene)
    requires stack != []
    ensures AfterUpdate(AfterUpdate(stack, Push(scene)), Pop) == stack
    ensures AfterDraw(AfterDraw(stack, Push(scene)), Pop) == stack
  {
  }

  /** The game's state: the scene stack, `scenes: Vec<Box<dyn Scene>>`. */
  class GameState {
    var scenes: seq<Scene>

    /** `GameState::new`: the stack holds only the title scene. */
    constructor ()
      ensures scenes == [TitleScene("SUPER PONG")]
    {
      scenes := [TitleScene("SUPER PONG")];
    }

    /** `update`: only the top scene runs. Its error is passed on with the stack
        unchanged; its transition is applied to the stack. With no scene left the
        game quits and the stack stays empty. */
    method Update(step: Scene -> Wrappers.Result<Transition, string>) returns (quit: bool, r: Wrappers.Result<(), string>)
      modifies this
      ensures quit <==> old(scenes) == []
      ensures quit ==> scenes == old(scenes) && r.Ok?
      ensures !quit && step(old(scenes)[|old(scenes)| - 1]).Err? ==>
        scenes == old(scenes) && r == Wrappers.Err(step(old(scenes)[|old(scenes)| - 1]).error)
      ensures !quit && step(old(scenes)[|old(scenes)| - 1]).Ok? ==>
        scenes == AfterUpdate(old(scenes), step(old(scenes)[|old(scenes)| - 1]).value) && r.Ok?
    {
      if scenes == [] {
        return true, Wrappers.Ok(());
      }
      var outcome := step(scenes[|scenes| - 1]);
      if outcome.Err? {
        return false, Wrappers.Err(outcome.error);
      }
      match outcome.value {
        case None =>
        case Push(s) => scenes := scenes + [s];
        case Pop => scenes := scenes[..|scenes| - 1];
        case NewGame(s) =>
          scenes := [];
          scenes := scenes + [s];
      }
      return false, Wrappers.Ok(());
    }

    /** `draw`: as `update`, except that a new game replaces only the top scene. */
    method Draw(step: Scene -> Wrappers.Result<Transition, string>) returns (quit: bool, r: Wrappers.Result<(), string>)
      modifies this
      ensures quit <==> old(scenes) == []
      ensures quit ==> scenes == old(scenes) && r.Ok?
      ensures !quit && step(old(scenes)[|old(scenes)| - 1]).Err? ==>
        scenes == old(scenes) && r == Wrappers.Err(step(old(scenes)[|old(scenes)| - 1]).error)
      ensures !quit && step(old(scenes)[|old(scenes)| - 1]).Ok? ==>
        scenes == AfterDraw(old(scenes), step(old(scenes)[|old(scenes)| - 1]).value) && r.Ok?
    {
      if scenes == [] {
        return true, Wrappers.Ok(());
      }
      var outcome := step(scenes[|scenes| - 1]);
      if outcome.Err? {
        return false, Wrappers.Err(outcome.error);
      }
      match outcome.value {
        case None =>
        case Push(s) => scenes := scenes + [s];
        case Pop => scenes := scenes[..|scenes| - 1];
        case NewGame(s) =>
          scenes := scenes[..|scenes| - 1];
          scenes := scenes + [s];
      }
      return false, Wrappers.Ok(());
    }
  }
}
