# LearningVulkan: device and presentation-chain negotiation

This project models the decision rules of `TriangleApp.cpp` in the
LearningVulkan sample. These rules choose a Vulkan physical device, open its
queues and configure the swap chain. Every driver and GLFW query result is
plain input data:

- a physical device is its queue families, its device extension names and its
  surface support;
- a queue family is its `queueFlags` bit mask plus the answer of
  `getSurfaceSupportKHR` for the target surface;
- surface support is the capabilities (current, minimum and maximum extent;
  minimum and maximum image count), the `(format, colorSpace)` pairs and the
  present modes;
- the window is the size `glfwGetWindowSize` reports, or absent (a null window);
- the platform instance extensions are a name list, or the GLFW error when
  `glfwGetRequiredInstanceExtensions` returns NULL.

`uint32_t` is a bounded `int` (`UInt32`). The sentinel
`std::numeric_limits<uint32_t>::max()` is `UINT32_MAX = 0xFFFFFFFF`. The
`int`-to-`uint32_t` cast of the window size is modulo 2^32. So is the
`minImageCount + 1` of the image count. Format, colour-space and present-mode
values are the numbers of the Vulkan headers: `VK_FORMAT_B8G8R8A8_SRGB` = 50,
`VK_COLOR_SPACE_SRGB_NONLINEAR_KHR` = 0, Mailbox = 1, Fifo = 2. The
compile-time switch `use_validation_layers` (set by `_DEBUG`) is a `bool`
parameter. A thrown `std::runtime_error` is a `Failure` of `InitError`.

Modules, in the order of the source:

- `VulkanData`: the data above and the application's constants.
- `QueueFamilies`: `QueueFamilyIndices` with `IsComplete`, the scan
  `FindQueueFamilies` and lemmas that characterise its result.
- `CapabilityChecks`: the extension and layer name checks and `GetRequiredExtensions`.
- `QueueRequests`: the deduplicated queue-create requests of `CreateDevice`.
- `DeviceSelection`: `IsSuitableDevice`, first-fit selection and `CreateDevice`.
- `SwapChain`: format, present mode, extent, image count, sharing mode and `CreateSwapChain`.
- `Negotiation`: the order of decisions in `OnInit` and one end-to-end scenario.

Several behaviours of the code are easy to misread; the model follows the code:

- `FindQueueFamilies` does not record the *first* graphics and presenting
  family. It overwrites each index at every matching family and stops at the
  first family where both are set. Each recorded index is therefore the last
  match at or before that stop point.
- `ChoosePresentMode` returns Fifo whenever Mailbox is absent, even when Fifo
  is not in the list.
- The window size is cast from `int` to `uint32_t` before clamping, so a
  negative size wraps (`ToUInt32`).
- `minImageCount + 1` wraps to 0 at `UINT32_MAX`, and the requested count is then 0.
- `CreateSwapChain` calls `.value()` on the indices. For a device whose queue
  families are incomplete this throws (`MissingQueueFamily`). `Negotiate`
  proves that this cannot happen after selection.
- No render pass, image view or pipeline code is present in the file, so
  none is modelled.

## Model

| member | source | states |
|---|---|---|
| `VulkanData.ToUInt32` | src/LearningVulkan/Application/TriangleApp.cpp:186-187 | `static_cast<uint32_t>` of a window dimension keeps a non-negative value and adds 2^32 to a negative one |
| `QueueFamilies.ScanFamiliesOutcome` | src/LearningVulkan/Application/TriangleApp.cpp:131-145 | from any scan position whose indices are the last matches so far and incomplete, the rest of the scan ends in the outcome below |
| `QueueFamilies.QueueFamiliesOfOutcome` | src/LearningVulkan/Application/TriangleApp.cpp:126-148 | when complete, the scan stopped at k = max(graphics, present); both indices are the last matches among the first k+1 families; the first k families did not yet hold both roles. When incomplete, the indices are the last matches overall and None means no matching family |
| `QueueFamilies.QueueFamiliesCompleteIff` | src/LearningVulkan/Application/TriangleApp.cpp:105-109 | the result is complete iff some family has the graphics bit and some family, possibly another, can present |
| `QueueFamilies.QueueFamiliesIndicesValid` | src/LearningVulkan/Application/TriangleApp.cpp:131-139 | each recorded index is below the family count and names a family with that capability |
| `QueueFamilies.QueueFamiliesStopPoint` | src/LearningVulkan/Application/TriangleApp.cpp:141-143 | when complete, one index equals the stop position k, neither index exceeds k, each is the last match at or before k, and the families before k did not hold both roles |
| `QueueFamilies.FindQueueFamilies` | src/LearningVulkan/Application/TriangleApp.cpp:126-148 | the loop with overwriting and early `break` returns exactly the scan characterised above |
| `CapabilityChecks.CheckDeviceExtensionSupport` | src/LearningVulkan/Application/TriangleApp.cpp:86-98 | after every available name is erased from the checklist of required names, the checklist is empty iff every required device extension is available |
| `CapabilityChecks.CheckValidationLayerSupport` | src/LearningVulkan/Application/TriangleApp.cpp:49-63 | true iff every validation layer is among the host's layers; otherwise it stops at the first missing layer and reports it, and every layer before it is present |
| `CapabilityChecks.GetRequiredExtensions` | src/LearningVulkan/Application/TriangleApp.cpp:65-84 | fails with the GLFW error code and message iff the platform list is NULL; otherwise the platform names in order, followed by the debug-utils name exactly when validation is on |
| `DeviceSelection.IsSuitableDevice` | src/LearningVulkan/Application/TriangleApp.cpp:197-220 | suitable iff the queue families are complete, every required extension is supported, and the formats and the present modes are both non-empty |
| `DeviceSelection.SelectPhysicalDevice` | src/LearningVulkan/Application/TriangleApp.cpp:296-304 | "no physical devices" iff the list is empty; "no suitable device" iff it is non-empty and no device qualifies; otherwise the first suitable device in list order |
| `QueueRequests.UniqueFamilies` | src/LearningVulkan/Application/TriangleApp.cpp:311 | the iteration order of the two-element `std::set`: strictly ascending and holding exactly the two family indices |
| `QueueRequests.QueueCreateInfosFor` | src/LearningVulkan/Application/TriangleApp.cpp:309-314 | one request per distinct family of {graphics, present}: 1 entry iff they are equal, else 2, both families covered, ascending order, each for 1 queue at priority 1.0 |
| `DeviceSelection.CreateDevice` | src/LearningVulkan/Application/TriangleApp.cpp:294-327 | the same two failures as selection; on success the first suitable device, its indices (proved complete), one request per distinct family, the swapchain extension enabled, and the validation layers iff validation is on |
| `SwapChain.ChooseSwapSurfaceFormat` | src/LearningVulkan/Application/TriangleApp.cpp:150-163 | for a non-empty list: B8G8R8A8Srgb with SrgbNonlinear if it occurs anywhere, otherwise element 0; the result is always in the list |
| `SwapChain.ChoosePresentMode` | src/LearningVulkan/Application/TriangleApp.cpp:165-173 | Mailbox iff Mailbox is in the list, otherwise Fifo, whether or not Fifo is offered |
| `SwapChain.Clamp` | src/LearningVulkan/Application/TriangleApp.cpp:186-187 | `std::clamp` for ordered bounds: the result lies within the bounds, is the value if the value fits, and is the nearer bound otherwise |
| `SwapChain.ChooseSwapExtent` | src/LearningVulkan/Application/TriangleApp.cpp:175-195 | a current width other than the sentinel gives `currentExtent` verbatim, whatever the window; the sentinel with a window gives the cast window size clamped componentwise into [min, max], which equals the window size when it fits; the sentinel without a window gives 800x600 |
| `SwapChain.IncrementUInt32` | src/LearningVulkan/Application/TriangleApp.cpp:269 | `minImageCount + 1` in `uint32_t`: the successor below the maximum, and 0 at the maximum |
| `SwapChain.RequestedImageCount` | src/LearningVulkan/Application/TriangleApp.cpp:263-269 | min+1 when the maximum is 0 (unbounded) or above the minimum; the non-zero maximum when min+1 would exceed it, so it never exceeds a non-zero maximum; 0 when min+1 wraps |
| `SwapChain.ChooseImageSharing` | src/LearningVulkan/Application/TriangleApp.cpp:275-284 | Concurrent with [graphics, present] iff the families differ; Exclusive with no families otherwise |
| `SwapChain.CreateSwapChain` | src/LearningVulkan/Application/TriangleApp.cpp:257-292 | fails iff the device's queue families are incomplete, as `.value()` throws; otherwise the chosen format, mode, extent, image count and sharing, with one array layer and clipping on |
| `Negotiation.Negotiate` | src/LearningVulkan/Application/TriangleApp.cpp:349-377 | checks in source order: missing validation layers (only when validation is on), no Vulkan support in the platform, surface creation, no devices, no suitable device; once a device is selected the swap chain never fails on its indices; the result is built from the first suitable device: its indices, one queue request per distinct family, the swapchain extension, the validation layers iff validation is on, the instance extension list, the preferred format if offered (else the first), the chosen mode, extent, image count and sharing, one array layer and clipping on |
| `Negotiation.SingleDeviceScenario` | src/LearningVulkan/Application/TriangleApp.cpp:349-377 | one device with a single graphics+present family, the swapchain extension, one BGRA sRGB format, Fifo only, counts 1..2 and a fixed 800x600 extent: device 0, indices (0, 0), one queue request, BGRA sRGB, Fifo, 800x600, 2 images, exclusive sharing |

`QueueFamilyIndices.IsComplete` (src/LearningVulkan/Application/TriangleApp.cpp:105-109)
is the predicate itself. The lemmas above state what completeness means for a scan.

## Left out

- Creating driver and window objects is foreign calls with no visible logic. This covers `createInstanceUnique`, `glfwCreateWindowSurface`, `createDeviceUnique`, `createSwapchainKHRUnique`, `getQueue`, `getSwapchainImagesKHR` and `glfwCreateWindow`. Of their outcomes only three are inputs: whether the surface was created, the device list and the window; the others are assumed to succeed.
- `OnVulkanDebugCallback` only formats a message to `std::cerr`, which is I/O.
- The message `CheckValidationLayerSupport` prints is I/O. The model returns the missing layer's name instead.
- The create-info population in `CreateInstance` is left out: application info, the debug-messenger chain and `pNext`. It only passes data to the driver. The validation check and the extension list it uses are modelled.
- The fixed swap-chain fields are left out: image usage, pre-transform, composite alpha and old swap chain. They are constants or passed through with no decision.
- `getProperties` and `getFeatures` in `IsSuitableDevice` are left out because their results are never used.
- `IsSuitableDevice` queries surface support only after extension support is known. With queries as data, that evaluation order cannot be observed; the result is the same conjunction.
- `CreateSwapChain` queries support and queue families again from the driver. The model passes it the same device data that selection saw.
- The window loop, `MainLoop`, `OnDeinit` teardown, `entry.cpp`, `App.hpp`, `TriangleApp.hpp` and `Configuration.hpp` are lifecycle plumbing, declarations or compiler pragmas.
- `ChooseSwapExtent`: in a build without `NDEBUG` the no-window branch aborts at `assert(false)`. The model gives the release behaviour (800x600).
- `CreateDevice`: its `assert(indices.IsComplete())` can never fire after selection; the model proves the condition instead of checking it.
- `ChooseSwapSurfaceFormat` and `ChooseSwapExtent` have preconditions where the source is undefined: `front()` of an empty list, and `std::clamp` with reversed bounds.
- `Negotiate` assumes that `createInstanceUnique`, `createDeviceUnique` and `createSwapchainKHRUnique` succeed, and that the query calls whose results are data (`enumerateInstanceLayerProperties`, `enumeratePhysicalDevices`, `getQueueFamilyProperties`, `getSurfaceSupportKHR`, `enumerateDeviceExtensionProperties`, `getSurfaceCapabilitiesKHR`, `getSurfaceFormatsKHR`, `getSurfacePresentModesKHR`) return normally. In the source each of them can throw `vk::SystemError`, so its promise of success when a suitable device exists holds only under that assumption.
- `Negotiate` requires ordered extent bounds only for the selected device, the one whose extent is clamped; the Vulkan specification guarantees `maxImageExtent >= minImageExtent` for every device.
- The queue family list is at most 2^32 long, because the driver reports its count as `uint32_t`.
