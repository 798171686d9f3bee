/** The presentation-chain parameters `CreateSwapChain` negotiates. */
module SwapChain {
  import opened Wrappers
  import opened VulkanData
  import opened QueueFamilies

  /** The format the application prefers: 8-bit BGRA in the sRGB non-linear colour space. */
  const PREFERRED_SURFACE_FORMAT := SurfaceFormat(FORMAT_B8G8R8A8_SRGB, COLOR_SPACE_SRGB_NONLINEAR)

  predicate IsPreferredFormat(f: SurfaceFormat) {
    f.format == FORMAT_B8G8R8A8_SRGB && f.colorSpace == COLOR_SPACE_SRGB_NONLINEAR
  }

  /** `ChooseSwapSurfaceFormat`: the first preferred entry, else the first
      entry. The list must not be empty (`front()` of an empty span is undefined). */
  method ChooseSwapSurfaceFormat(formats: seq<SurfaceFormat>) returns (chosen: SurfaceFormat)
    requires |formats| > 0
    ensures chosen in formats
    ensures PREFERRED_SURFACE_FORMAT in formats ==> chosen == PREFERRED_SURFACE_FORMAT
    ensures PREFERRED_SURFACE_FORMAT !in formats ==> chosen == formats[0]
  {
    var i := 0;
    while i < |formats|
      invariant i <= |formats|
      invariant PREFERRED_SURFACE_FORMAT !in formats[..i]
    {
      if IsPreferredFormat(formats[i]) {
        return formats[i];
      }
      assert formats[..i + 1] == formats[..i] + [formats[i]];
      i := i + 1;
    }
    assert formats[..i] == formats;
    return formats[0];
  }

  /** `ChoosePresentMode`: Mailbox when the device offers it, otherwise Fifo,
      whether or not Fifo is in the list. */
  function ChoosePresentMode(modes: seq<PresentMode>): (mode: PresentMode)
    ensures mode == PRESENT_MODE_MAILBOX <==> PRESENT_MODE_MAILBOX in modes
    ensures mode != PRESENT_MODE_MAILBOX ==> mode == PRESENT_MODE_FIFO
  {
    if PRESENT_MODE_MAILBOX in modes then PRESENT_MODE_MAILBOX else PRESENT_MODE_FIFO
  }

  /** `std::clamp(v, lo, hi)`, which requires `!(hi < lo)`. */
  function Clamp(v: UInt32, lo: UInt32, hi: UInt32): (r: UInt32)
    requires lo <= hi
    ensures lo <= r <= hi
    ensures lo <= v <= hi ==> r == v
    ensures v < lo ==> r == lo
    ensures hi < v ==> r == hi
  {
    if v < lo then lo else if hi < v then hi else v
  }

  predicate ExtentBoundsOrdered(caps: SurfaceCapabilities) {
    caps.minImageExtent.width <= caps.maxImageExtent.width &&
    caps.minImageExtent.height <= caps.maxImageExtent.height
  }

  /** The clamp in `ChooseSwapExtent` runs only for the "any size" sentinel
      with a window; there its bounds must be ordered. */
  predicate ClampDefined(caps: SurfaceCapabilities, window: Option<WindowSize>) {
    caps.currentExtent.width == UINT32_MAX && window.Some? ==> ExtentBoundsOrdered(caps)
  }

  /** `ChooseSwapExtent`: the driver's fixed extent verbatim; for the "any
      size" sentinel the window size clamped into the driver's bounds; without
      a window the nominal 800x600. */
  function ChooseSwapExtent(caps: SurfaceCapabilities, window: Option<WindowSize>): (r: Extent2D)
    requires ClampDefined(caps, window)
    ensures caps.currentExtent.width != UINT32_MAX ==> r == caps.currentExtent
    ensures caps.currentExtent.width == UINT32_MAX && window.Some? ==>
      && caps.minImageExtent.width <= r.width <= caps.maxImageExtent.width
      && caps.minImageExtent.height <= r.height <= caps.maxImageExtent.height
      && r.width == Clamp(ToUInt32(window.value.width), caps.minImageExtent.width, caps.maxImageExtent.width)
      && r.height == Clamp(ToUInt32(window.value.height), caps.minImageExtent.height, caps.maxImageExtent.height)
    ensures (&& caps.currentExtent.width == UINT32_MAX && window.Some?
             && 0 <= window.value.width && 0 <= window.value.height
             && ExtentFits(Extent2D(window.value.width, window.value.height), caps))
      ==> r == Extent2D(window.value.width, window.value.height)
    ensures caps.currentExtent.width == UINT32_MAX && window.None? ==> r == Extent2D(WINDOW_WIDTH, WINDOW_HEIGHT)
  {
    if caps.currentExtent.width != UINT32_MAX then
      caps.currentExtent
    else if window.Some? then
      Extent2D(
        Clamp(ToUInt32(window.value.width), caps.minImageExtent.width, caps.maxImageExtent.width),
        Clamp(ToUInt32(window.value.height), caps.minImageExtent.height, caps.maxImageExtent.height))
    else
      Extent2D(ToUInt32(WINDOW_WIDTH), ToUInt32(WINDOW_HEIGHT))
  }

  predicate ExtentFits(e: Extent2D, caps: SurfaceCapabilities) {
    caps.minImageExtent.width <= e.width <= caps.maxImageExtent.width &&
    caps.minImageExtent.height <= e.height <= caps.maxImageExtent.height
  }

  /** `minImageCount + 1` in `uint32_t`, which wraps to 0 at the maximum. */
  function IncrementUInt32(x: UInt32): (r: UInt32)
    ensures x < UINT32_MAX ==> r == x + 1
    ensures x == UINT32_MAX ==> r == 0
  {
    (x + 1) % UINT32_COUNT
  }

  /** The image count `CreateSwapChain` requests: one more than the minimum,
      capped by the maximum, where a maximum of 0 means "no limit". */
  function RequestedImageCount(caps: SurfaceCapabilities): (n: UInt32)
    ensures caps.maxImageCount > 0 && caps.minImageCount < UINT32_MAX ==> n <= caps.maxImageCount
    ensures caps.minImageCount < UINT32_MAX && (caps.maxImageCount == 0 || caps.minImageCount < caps.maxImageCount) ==>
      n == caps.minImageCount + 1
    ensures caps.minImageCount < UINT32_MAX && 0 < caps.maxImageCount <= caps.minImageCount ==>
      n == caps.maxImageCount
    ensures caps.minImageCount == UINT32_MAX ==> n == 0
  {
    var maxSupported := if caps.maxImageCount > 0 then caps.maxImageCount else UINT32_MAX;
    var wanted := IncrementUInt32(caps.minImageCount);
    if wanted < maxSupported then wanted else maxSupported
  }

  datatype SharingMode = Exclusive | Concurrent

  /** The image sharing mode and the queue families named with it. */
  datatype ImageSharing = ImageSharing(mode: SharingMode, queueFamilyIndices: seq<UInt32>)

  /** Concurrent over both families when the roles use different families,
      otherwise exclusive with no families named. */
  function ChooseImageSharing(graphics: UInt32, present: UInt32): (s: ImageSharing)
    ensures s.mode == Concurrent <==> graphics != present
    ensures s.mode == Concurrent ==> s.queueFamilyIndices == [graphics, present]
    ensures s.mode == Exclusive ==> s.queueFamilyIndices == []
  {
    if graphics != present then ImageSharing(Concurrent, [graphics, present]) else ImageSharing(Exclusive, [])
  }

  /** The negotiated fields of `vk::SwapchainCreateInfoKHR`. */
  datatype SwapchainConfig = SwapchainConfig(
    minImageCount: UInt32,
    imageFormat: Format,
    imageColorSpace: ColorSpace,
    imageExtent: Extent2D,
    imageArrayLayers: nat,
    sharing: ImageSharing,
    presentMode: PresentMode,
    clipped: bool)

  /** `CreateSwapChain` up to the driver call: fails as `.value()` does when
      the device's queue families are incomplete. */
  method CreateSwapChain(device: PhysicalDevice, window: Option<WindowSize>) returns (r: Result<SwapchainConfig, InitError>)
    requires |device.support.formats| > 0
    requires ClampDefined(device.support.capabilities, window)
    ensures r.Failure? <==> !QueueFamiliesOf(device.queueFamilies).IsComplete()
    ensures r.Failure? ==> r.error == MissingQueueFamily
    ensures r.Success? ==>
      var c := r.value;
      var caps := device.support.capabilities;
      var indices := QueueFamiliesOf(device.queueFamilies);
      && SurfaceFormat(c.imageFormat, c.imageColorSpace) in device.support.formats
      && (PREFERRED_SURFACE_FORMAT in device.support.formats ==> SurfaceFormat(c.imageFormat, c.imageColorSpace) == PREFERRED_SURFACE_FORMAT)
      && (PREFERRED_SURFACE_FORMAT !in device.support.formats ==> SurfaceFormat(c.imageFormat, c.imageColorSpace) == device.support.formats[0])
      && c.presentMode == ChoosePresentMode(device.support.presentModes)
      && c.imageExtent == ChooseSwapExtent(caps, window)
      && c.minImageCount == RequestedImageCount(caps)
      && c.sharing == ChooseImageSharing(indices.graphicsFamily.value, indices.presentFamily.value)
      && c.imageArrayLayers == 1
      && c.clipped
  {
    var surfaceFormat := ChooseSwapSurfaceFormat(device.support.formats);
    var presentMode := ChoosePresentMode(device.support.presentModes);
    var extent := ChooseSwapExtent(device.support.capabilities, window);
    var imageCount := RequestedImageCount(device.support.capabilities);
    var indices := FindQueueFamilies(device.queueFamilies);
    if !indices.IsComplete() {
      return Failure(MissingQueueFamily);
    }
    var sharing := ChooseImageSharing(indices.graphicsFamily.value, indices.presentFamily.value);
    r := Success(SwapchainConfig(imageCount, surfaceFormat.format, surfaceFormat.colorSpace, extent, 1, sharing, presentMode, true));
  }
}
