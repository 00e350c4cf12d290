# Fog of war: cell visibility and mask buffer, in Dafny

This project models the sequential logic of a Unity fog-of-war renderer for a
hex-grid map.

- **Grid cells** (`grid_cell.dfy`, module `GridCells`). Each cell has a
  visibility value in [0, 1] and a flag saying whether it should be visible.
  A click or a drag over the cell with the primary button held flips the flag.
  It then restarts a one-second animation that interpolates linearly from the
  value showing at that moment to 1.0 or 0.0. When the animation ends, the
  value snaps to its target. The engine's coroutine is made explicit: an
  `Animation` record holds its locals (start time, start value, target, and
  the last progress value). Each frame resumes it once. The pure functions
  `Toggled` and `Stepped` specify the two operations. The class `GridCell`
  performs them in place, and its methods are proved against those functions.
  Lemmas over `Run`, a fold of events, give the properties of whole histories.
- **Unity's Mathf** (`mathf.dfy`, module `Mathf`). `Lerp` and the `Clamp01` it
  relies on are written out over exact reals, with their contracts proved.
- **Mask renderer** (`mask_renderer.dfy`, module `MaskRendering`). The class
  `MaskRenderer` holds the list of registered cells. Every frame it rebuilds
  the list of (x, z, visibility) elements for the compute kernel. It creates
  the compute buffer on the first frame only, publishes the cell count, and
  dispatches `TextureSize / 8` thread groups per axis. Engine objects are
  values: a render texture or compute buffer is a record of its creation
  arguments, and a C# `null` is `None`. Engine calls are recorded in ghost
  fields.
- `optional.dfy` holds the `Option` type used for nullable references.

Behaviours of the code the model keeps as written:
- The compute buffer is never reallocated when the cell count changes.
- A map size of 0 is not rejected.
- `TextureSize / 8` groups are dispatched per axis, rounded down.
- With no cell registered, the first frame's buffer has count 0, which the
  engine refuses with an exception. The buffer stays null, so every frame
  after that fails the same way and nothing is ever dispatched.

## Model

| member | source | states |
|---|---|---|
| Mathf.Clamp01 | CivilizationFogOfWarUnityProject/Assets/Scripts/GridCell.cs:67 | The interpolation parameter is clamped: the result lies in [0, 1]. It equals the input inside [0, 1], is 0 at or below 0, and is 1 at or above 1. |
| Mathf.Lerp | CivilizationFogOfWarUnityProject/Assets/Scripts/GridCell.cs:67 | The interpolated visibility always lies between the start value and the target. It is exactly the start value at progress 0 or less, and exactly the target at progress 1 or more. |
| Mathf.LerpApproaches | CivilizationFogOfWarUnityProject/Assets/Scripts/GridCell.cs:64-67 | A larger progress value never moves the interpolated value further from the target. |
| GridCells.Toggled | CivilizationFogOfWarUnityProject/Assets/Scripts/GridCell.cs:43-51 | With the button up, nothing changes. With it held, the flag flips and the animation is replaced by a new one. The new animation starts now, from the current visibility, with progress 0, heading for 1.0 if the cell is now visible and 0.0 otherwise. The visibility itself does not change, even though the first loop iteration runs. The cell invariant is preserved. |
| GridCells.Stepped | CivilizationFogOfWarUnityProject/Assets/Scripts/GridCell.cs:59-71 | With no animation running, a frame changes nothing. Otherwise the new visibility lies between the start value and the target. Once the previous progress has reached 1, the loop ends and the visibility is exactly the target. Any frame at least one second after the start gives exactly the target. The flag never changes, and the cell invariant is preserved. |
| GridCells.StepApproachesTarget | CivilizationFogOfWarUnityProject/Assets/Scripts/GridCell.cs:64-67 | When time does not run backwards, no frame moves the visibility further from the target. |
| GridCells.ToggleTwiceRestoresFlag | CivilizationFogOfWarUnityProject/Assets/Scripts/GridCell.cs:48-50 | Two toggles with the button held restore the original flag and target. The visibility has not jumped. |
| GridCells.RunKeepsInv | CivilizationFogOfWarUnityProject/Assets/Scripts/GridCell.cs:43-71 | The cell invariant survives any sequence of mouse events and frames, at any times, so the visibility stays in [0, 1]. |
| GridCells.VisibilityInRange | CivilizationFogOfWarUnityProject/Assets/Scripts/GridCell.cs:9-13 | A cell starts at visibility 0, hidden. From there, the visibility lies in [0, 1] after any history of events, as the property's doc comment promises. |
| GridCells.SettledStays | CivilizationFogOfWarUnityProject/Assets/Scripts/GridCell.cs:34-71 | Once the visibility is on the target and the loop condition has failed, further frames and button-up mouse events keep it there. The first frame among them ends the coroutine. |
| GridCells.SettlesAtTarget | CivilizationFogOfWarUnityProject/Assets/Scripts/GridCell.cs:34-71 | After a toggle with no further toggles, take any frame one second or more after the start. Mouse events with the button up may come in between, since they return at once. From that frame on, the visibility equals the target exactly. The next frame after it ends the coroutine. |
| GridCells.RestartIsContinuous | CivilizationFogOfWarUnityProject/Assets/Scripts/GridCell.cs:48-67 | Toggle on, wait half a second, then toggle off. The second animation starts from 0.5, the value the first animation was showing, heads for 0, and the visibility does not jump. |
| GridCells.GridCell.constructor | CivilizationFogOfWarUnityProject/Assets/Scripts/GridCell.cs:12-13 | A new cell has visibility 0, is not visible, and has no animation running. |
| GridCells.GridCell.ToggleVisibility | CivilizationFogOfWarUnityProject/Assets/Scripts/GridCell.cs:43-51 | The in-place toggle yields the state `Toggled` specifies. With the button up, the object is unchanged. The visibility is never changed by a toggle. |
| GridCells.GridCell.AnimationStep | CivilizationFogOfWarUnityProject/Assets/Scripts/GridCell.cs:59-71 | The in-place frame of the coroutine yields the state `Stepped` specifies. The flag is untouched. One second after the start, the visibility is the target. |
| MaskRendering.GroupsPerAxis | CivilizationFogOfWarUnityProject/Assets/Scripts/MaskRenderer.cs:147-150 | C# integer division by 8 truncates toward zero. For a non-negative size, 8·g ≤ size < 8·(g+1), so fewer than 8 texel rows or columns go undispatched. Full coverage holds exactly when the size is a multiple of 8. Over the inspector range 64 to 4096, g is between 8 and 512. |
| MaskRendering.MaskRenderer.constructor | CivilizationFogOfWarUnityProject/Assets/Scripts/MaskRenderer.cs:26-79 | The serialized configuration is stored. The texture and buffer start as null, the lists do not exist yet, and nothing has been sent to the engine. |
| MaskRendering.MaskRenderer.Awake | CivilizationFogOfWarUnityProject/Assets/Scripts/MaskRenderer.cs:84-106 | Awake creates an empty cell list and a random-write square texture of TextureSize. It then passes the texture size and the texture to the kernel, publishes the texture and the map size globally, and creates an empty element list. Without a compute shader, the first shader call throws: the list and texture exist, and nothing after them happens. |
| MaskRendering.MaskRenderer.RegisterCell | CivilizationFogOfWarUnityProject/Assets/Scripts/MaskRenderer.cs:16-19 | The cell is appended at the end. Earlier entries are unchanged, and duplicates are kept. |
| MaskRendering.MaskRenderer.Update | CivilizationFogOfWarUnityProject/Assets/Scripts/MaskRenderer.cs:117-151 | The element list is rebuilt from empty. It has exactly one element per registered cell, in registration order, and element i is (x, z, visibility) of cell i. The buffer is created only when absent, with 3·count floats of stride 4, and is otherwise kept even if the count changed. If it would be created with count 0, the frame stops there: the buffer stays null and nothing is uploaded, bound, published or dispatched. Otherwise the upload is exactly this frame's elements, the buffer is bound to the kernel, the published cell count is their number, and the dispatch is kernel 0 with (TextureSize/8, TextureSize/8, 1) groups. |
| MaskRendering.MaskRenderer.OnDestroy | CivilizationFogOfWarUnityProject/Assets/Scripts/MaskRenderer.cs:108-114 | The buffer is disposed only if it was created. The texture is destroyed only if it exists, and afterwards it reads as null. Teardown is safe when nothing was created, and running it twice does nothing more. |

## Left out

- The compute kernel is GPU code and is not part of this model. So are `ComputeShader.Set*`, `Dispatch`, `Shader.SetGlobal*` and render texture creation. They are foreign engine calls; only their arguments are recorded, as ghost state (the texture size, the texture bound to the kernel and globally, the global map size, the uploaded elements, the bound buffer, the cell count and the dispatch). The radius and blend arguments are not recorded (next line).
- The radius and blend parameters (`Radius / MapSize`, `BlendDistance / MapSize`) are float divisions. With the default map size of 0, they give IEEE infinities or NaN, not an error. They are not modelled.
- Float rounding: times and visibilities are exact reals. `Mathf.Lerp` and `Mathf.Clamp01` are modelled from Unity's documented behaviour.
- MaskRendering.MaskRenderer.Update: does not model the engine's size check in `ComputeBuffer.SetData`. A cell registered after the first frame makes the upload larger than the buffer, and the engine rejects it. This model only records that the buffer keeps its first size. The code relies on every cell registering in `Start`, before the first `Update`.
- Unity lifecycle and scheduling are preconditions. `RegisterCell` requires the list that `Awake` creates. `Update` requires `Awake` to have completed. The coroutine scheduler becomes the explicit animation record and `AnimationStep`. `Time.time` becomes the `now` parameter.
- Mouse input (`OnMouseDown`, `OnMouseEnter`, `Input.GetMouseButton(0)`) becomes the `buttonHeld` argument of the toggle.
- Each cell's `transform.position` becomes the cell's fixed `x` and `z` fields.
- The static cell list is a field of the single renderer object. Sharing it between several renderers, and keeping it across scene loads, is not modelled.
- `GridCell.Start` calls `RegisterCell` and is not modelled separately.
