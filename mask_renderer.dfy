/**
 * The component that drives the mask compute pass.
 *
 * It keeps the list of registered grid cells and, every frame, rebuilds
 * the list of (x, z, visibility) triples handed to the compute kernel,
 * allocates the GPU buffer the first time, publishes the cell count and
 * dispatches one 8x8 thread group per 8x8 block of the mask texture.
 *
 * Engine objects are values here: the render texture and the compute
 * buffer are records of the arguments they were created with, a C# null
 * is `None`, and calls into the engine (shader parameters, buffer upload,
 * dispatch) are recorded in ghost fields.
 */
module MaskRendering {
  import opened Optional
  import opened GridCells

  /** sizeof(float): the stride of the compute buffer. */
  const FloatSize: int := 4

  /** Edge of the kernel's square thread group. */
  const ThreadGroupSize: int := 8

  /** Index of the only kernel in the compute shader. */
  const KernelIndex: int := 0

  /** Inspector range of the texture size. */
  const MinTextureSize: int := 64
  const MaxTextureSize: int := 4096

  /** What the kernel reads per cell: ground-plane position and visibility. */
  datatype CellBufferElement = CellBufferElement(positionX: real, positionY: real, visibility: real)

  /** A compute buffer: element count, element stride, and whether Dispose ran. */
  datatype ComputeBuffer = ComputeBuffer(count: int, stride: int, disposed: bool)

  /** A created render texture. */
  datatype RenderTexture = RenderTexture(width: int, height: int, depth: int, enableRandomWrite: bool)

  /** Arguments of ComputeShader.Dispatch. */
  datatype Dispatch = Dispatch(kernel: int, groupsX: int, groupsY: int, groupsZ: int)

  /** The element built for one cell: x and z of its position, then its visibility. */
  function ElementOf(cell: GridCell): CellBufferElement
    reads cell
  {
    CellBufferElement(cell.x, cell.z, cell.visibility)
  }

  /** C#'s integer division, which truncates toward zero. */
  function CSharpDiv(n: int, d: int): int
    requires d > 0
  {
    if n >= 0 then n / d else -((-n) / d)
  }

  /**
   * Thread groups per axis, TextureSize / 8 in C#. For a non-negative size
   * the groups cover the largest multiple of 8 not above it, so fewer than
   * 8 texel rows and columns stay undispatched, and none exactly when the
   * size is a multiple of 8. Over the inspector range this is 8 to 512.
   */
  function GroupsPerAxis(textureSize: int): (g: int)
    ensures textureSize >= 0 ==> 0 <= ThreadGroupSize * g <= textureSize < ThreadGroupSize * (g + 1)
    ensures textureSize >= 0 ==> (ThreadGroupSize * g == textureSize <==> textureSize % ThreadGroupSize == 0)
    ensures textureSize < 0 ==> ThreadGroupSize * (g - 1) < textureSize <= ThreadGroupSize * g <= 0
    ensures MinTextureSize <= textureSize <= MaxTextureSize ==> 8 <= g <= 512
  {
    CSharpDiv(textureSize, ThreadGroupSize)
  }

  class MaskRenderer {
    // Serialized configuration, fixed for the session.
    const computeShaderAssigned: bool
    const textureSize: int
    const mapSize: real
    const radius: real
    const blendDistance: real

    // The static cell list; None until Awake.
    var cells: Option<seq<GridCell>>
    var maskTexture: Option<RenderTexture>
    var bufferElements: Option<seq<CellBufferElement>>
    var buffer: Option<ComputeBuffer>

    // Arguments last handed to the engine.
    ghost var shaderTextureSize: Option<int>
    ghost var shaderTexture: Option<RenderTexture>
    ghost var globalMaskTexture: Option<RenderTexture>
    ghost var globalMapSize: Option<real>
    ghost var uploaded: seq<CellBufferElement>
    ghost var shaderBuffer: Option<ComputeBuffer>
    ghost var publishedCellCount: Option<int>
    ghost var lastDispatch: Option<Dispatch>
    ghost var textureDestroyed: bool

    /** Field initialisers: nothing allocated, nothing sent to the engine. */
    constructor(computeShaderAssigned: bool, textureSize: int, mapSize: real, radius: real, blendDistance: real)
      requires MinTextureSize <= textureSize <= MaxTextureSize
      ensures this.computeShaderAssigned == computeShaderAssigned && this.textureSize == textureSize
      ensures this.mapSize == mapSize && this.radius == radius && this.blendDistance == blendDistance
      ensures cells == None && maskTexture == None && bufferElements == None && buffer == None
      ensures shaderTextureSize == None && shaderTexture == None && globalMaskTexture == None
      ensures globalMapSize == None && uploaded == [] && shaderBuffer == None
      ensures publishedCellCount == None && lastDispatch == None && !textureDestroyed
    {
      this.computeShaderAssigned := computeShaderAssigned;
      this.textureSize := textureSize;
      this.mapSize := mapSize;
      this.radius := radius;
      this.blendDistance := blendDistance;
      cells := None;
      maskTexture := None;
      bufferElements := None;
      buffer := None;
      shaderTextureSize := None;
      shaderTexture := None;
      globalMaskTexture := None;
      globalMapSize := None;
      uploaded := [];
      shaderBuffer := None;
      publishedCellCount := None;
      lastDispatch := None;
      textureDestroyed := false;
    }

    /**
     * Awake: empty cell list, a new random-write square texture, the
     * kernel's texture size and texture, the global texture and map size,
     * an empty element list. With no compute shader assigned the first shader call throws:
     * the cell list and the texture exist, nothing after them happens, and
     * `completed` is false.
     */
    method Awake() returns (completed: bool)
      modifies this
      ensures completed == computeShaderAssigned
      ensures cells == Some([])
      ensures maskTexture == Some(RenderTexture(textureSize, textureSize, 0, true))
      ensures completed ==> bufferElements == Some([])
      ensures completed ==> shaderTextureSize == Some(textureSize) && shaderTexture == maskTexture
      ensures completed ==> globalMaskTexture == maskTexture && globalMapSize == Some(mapSize)
      ensures !completed ==> bufferElements == old(bufferElements)
      ensures !completed ==> shaderTextureSize == old(shaderTextureSize) && shaderTexture == old(shaderTexture)
      ensures !completed ==> globalMaskTexture == old(globalMaskTexture) && globalMapSize == old(globalMapSize)
      ensures buffer == old(buffer) && uploaded == old(uploaded) && shaderBuffer == old(shaderBuffer)
      ensures publishedCellCount == old(publishedCellCount) && lastDispatch == old(lastDispatch)
      ensures textureDestroyed == old(textureDestroyed)
    {
      cells := Some([]);
      maskTexture := Some(RenderTexture(textureSize, textureSize, 0, true));
      if !computeShaderAssigned {
        return false;
      }
      shaderTextureSize := Some(textureSize);
      shaderTexture := maskTexture;
      globalMaskTexture := maskTexture;
      globalMapSize := Some(mapSize);
      bufferElements := Some([]);
      return true;
    }

    /**
     * RegisterCell: append at the end, earlier entries untouched, no
     * check for duplicates. The list exists only once Awake has run.
     */
    method RegisterCell(cell: GridCell)
      requires cells.Some?
      modifies this`cells
      ensures cells == Some(old(cells.value) + [cell])
      ensures |cells.value| == |old(cells.value)| + 1 && cells.value[|cells.value| - 1] == cell
      ensures cells.value[..|old(cells.value)|] == old(cells.value)
    {
      cells := Some(cells.value + [cell]);
    }

    /**
     * Update: clear the element list and refill it with one element per
     * registered cell, in order; create the buffer only if there is none,
     * with three floats per element; upload the elements, bind the buffer,
     * publish their count and dispatch TextureSize / 8 groups along x and y.
     * The engine refuses a buffer of count 0: on a frame that would create
     * one (no buffer yet, no cell registered) the constructor throws after
     * the rebuild, the buffer stays null and nothing is sent to the kernel;
     * `completed` is false.
     */
    method Update() returns (completed: bool)
      requires cells.Some? && bufferElements.Some?
      modifies this`bufferElements, this`buffer, this`uploaded, this`shaderBuffer
      modifies this`publishedCellCount, this`lastDispatch
      ensures bufferElements.Some? && |bufferElements.value| == |cells.value|
      ensures forall i :: 0 <= i < |cells.value| ==> bufferElements.value[i] == ElementOf(cells.value[i])
      ensures completed == (old(buffer).Some? || |cells.value| > 0)
      ensures old(buffer).None? && completed ==> buffer == Some(ComputeBuffer(3 * |cells.value|, FloatSize, false))
      ensures old(buffer).None? && !completed ==> buffer == None
      ensures old(buffer).Some? ==> buffer == old(buffer)
      ensures completed ==> uploaded == bufferElements.value && shaderBuffer == buffer
      ensures completed ==> publishedCellCount == Some(|bufferElements.value|)
      ensures completed ==> lastDispatch == Some(Dispatch(KernelIndex, GroupsPerAxis(textureSize), GroupsPerAxis(textureSize), 1))
      ensures !completed ==> uploaded == old(uploaded) && shaderBuffer == old(shaderBuffer)
      ensures !completed ==> publishedCellCount == old(publishedCellCount) && lastDispatch == old(lastDispatch)
    {
      bufferElements := Some([]);
      var cs := cells.value;
      for i := 0 to |cs|
        invariant bufferElements.Some? && |bufferElements.value| == i
        invariant forall k :: 0 <= k < i ==> bufferElements.value[k] == ElementOf(cs[k])
        invariant buffer == old(buffer)
        invariant uploaded == old(uploaded) && shaderBuffer == old(shaderBuffer)
        invariant publishedCellCount == old(publishedCellCount) && lastDispatch == old(lastDispatch)
      {
        var element := CellBufferElement(cs[i].x, cs[i].z, cs[i].visibility);
        bufferElements := Some(bufferElements.value + [element]);
      }

      if buffer.None? {
        var count := |bufferElements.value| * 3;
        if count <= 0 {
          return false;
        }
        buffer := Some(ComputeBuffer(count, FloatSize, false));
      }

      uploaded := bufferElements.value;
      shaderBuffer := buffer;
      publishedCellCount := Some(|bufferElements.value|);
      lastDispatch := Some(Dispatch(KernelIndex, GroupsPerAxis(textureSize), GroupsPerAxis(textureSize), 1));
      return true;
    }

    /**
     * OnDestroy: dispose the buffer if one was created, destroy the
     * texture if it exists (afterwards it compares equal to null). Safe
     * with nothing created, and a second call changes nothing more.
     */
    method OnDestroy()
      modifies this`buffer, this`maskTexture, this`textureDestroyed
      ensures buffer == (if old(buffer).Some? then Some(old(buffer.value).(disposed := true)) else None)
      ensures maskTexture == None
      ensures textureDestroyed == (old(textureDestroyed) || old(maskTexture).Some?)
    {
      if buffer.Some? {
        buffer := Some(buffer.value.(disposed := true));
      }
      if maskTexture.Some? {
        maskTexture := None;
        textureDestroyed := true;
      }
    }
  }
}
