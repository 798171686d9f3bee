/** The driver and window query results that the negotiation rules consume,
    modelled as plain data, together with the application's fixed settings. */
module VulkanData {

  /** A `uint32_t`. */
  type UInt32 = x: int | 0 <= x <= 0xFFFF_FFFF

  /** A C `int` as GLFW reports window sizes in. */
  type Int32 = x: int | -0x8000_0000 <= x <= 0x7FFF_FFFF

  /** `std::numeric_limits<uint32_t>::max()`, also the "any size" sentinel of `currentExtent`. */
  const UINT32_MAX: UInt32 := 0xFFFF_FFFF

  /** The number of distinct `uint32_t` values. */
  const UINT32_COUNT: nat := 0x1_0000_0000

  /** `static_cast<uint32_t>(x)`: the value modulo 2^32. */
  function ToUInt32(x: Int32): (r: UInt32)
    ensures 0 <= x ==> r == x
    ensures x < 0 ==> r == x + UINT32_COUNT
  {
    x % UINT32_COUNT
  }

  /** `VK_QUEUE_GRAPHICS_BIT`. */
  const QUEUE_GRAPHICS_BIT: bv32 := 0x1

  /** One entry of `getQueueFamilyProperties()`, together with the answer of
      `getSurfaceSupportKHR(index, surface)` for the target surface. */
  datatype QueueFamily = QueueFamily(queueFlags: bv32, presentSupport: bool)

  predicate HasGraphics(family: QueueFamily) {
    family.queueFlags & QUEUE_GRAPHICS_BIT != 0
  }

  /** The driver reports the number of queue families as a `uint32_t`. */
  type QueueFamilyList = s: seq<QueueFamily> | |s| <= UINT32_COUNT witness []

  /** `VkFormat`, `VkColorSpaceKHR` and `VkPresentModeKHR` are enumerations
      whose numeric values come from the Vulkan headers. */
  type Format = nat
  type ColorSpace = nat
  type PresentMode = nat

  const FORMAT_B8G8R8A8_SRGB: Format := 50
  const COLOR_SPACE_SRGB_NONLINEAR: ColorSpace := 0

  const PRESENT_MODE_IMMEDIATE: PresentMode := 0
  const PRESENT_MODE_MAILBOX: PresentMode := 1
  const PRESENT_MODE_FIFO: PresentMode := 2
  const PRESENT_MODE_FIFO_RELAXED: PresentMode := 3

  datatype SurfaceFormat = SurfaceFormat(format: Format, colorSpace: ColorSpace)

  datatype Extent2D = Extent2D(width: UInt32, height: UInt32)

  /** The parts of `vk::SurfaceCapabilitiesKHR` the rules read. */
  datatype SurfaceCapabilities = SurfaceCapabilities(
    minImageCount: UInt32,
    maxImageCount: UInt32,
    currentExtent: Extent2D,
    minImageExtent: Extent2D,
    maxImageExtent: Extent2D)

  /** `SwapChainSupportDetails`: what the device offers for the surface. */
  datatype SwapChainSupport = SwapChainSupport(
    capabilities: SurfaceCapabilities,
    formats: seq<SurfaceFormat>,
    presentModes: seq<PresentMode>)

  /** A physical device as the rules see it: its queue families, the names of
      its device extensions and its support for the target surface. */
  datatype PhysicalDevice = PhysicalDevice(
    queueFamilies: QueueFamilyList,
    extensions: seq<string>,
    support: SwapChainSupport)

  /** The result of `glfwGetWindowSize`. */
  datatype WindowSize = WindowSize(width: Int32, height: Int32)

  /** The result of `glfwGetRequiredInstanceExtensions`: the names, or NULL
      with the code and message `glfwGetError` then reports. */
  datatype PlatformExtensions =
    | PlatformSupported(names: seq<string>)
    | PlatformUnsupported(errorCode: int, message: string)

  /** The failures the initialisation throws. */
  datatype InitError =
    | ValidationLayersUnavailable
    | VulkanUnsupported(errorCode: int, message: string)
    | SurfaceCreationFailed
    | NoPhysicalDevices
    | NoSuitablePhysicalDevice
    | MissingQueueFamily

  const WINDOW_WIDTH: Int32 := 800
  const WINDOW_HEIGHT: Int32 := 600

  const SWAPCHAIN_EXTENSION_NAME: string := "VK_KHR_swapchain"
  const DEBUG_UTILS_EXTENSION_NAME: string := "VK_EXT_debug_utils"

  const REQUIRED_DEVICE_EXTENSIONS: seq<string> := [SWAPCHAIN_EXTENSION_NAME]
  const VALIDATION_LAYERS: seq<string> := ["VK_LAYER_KHRONOS_validation"]
}
