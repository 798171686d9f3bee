/** The sequence of decisions `TriangleApp::OnInit` makes: instance, surface,
    device and presentation chain, each failing as the source throws. */
module Negotiation {
  import opened Wrappers
  import opened VulkanData
  import opened QueueFamilies
  import opened CapabilityChecks
  import opened QueueRequests
  import opened DeviceSelection
  import opened SwapChain

  /** What the initialisation settles on before the driver creates objects. */
  datatype Session = Session(
    instanceExtensions: seq<string>,
    instanceLayers: seq<string>,
    device: DeviceSetup,
    swapchain: SwapchainConfig)

  /** The initialisation with every driver and window query given as data:
      the host's layer names, the platform's instance extensions, whether the
      window surface could be created, the enumerated devices and the window. */
  method Negotiate(
    useValidation: bool,
    hostLayers: seq<string>,
    platform: PlatformExtensions,
    surfaceCreated: bool,
    devices: seq<PhysicalDevice>,
    window: Option<WindowSize>)
    returns (r: Result<Session, InitError>)
    requires forall i :: 0 <= i < |devices| && FirstSuitable(devices, i) ==>
      ClampDefined(devices[i].support.capabilities, window)
    ensures useValidation && !ValidationLayersSupported(hostLayers) ==> r == Failure(ValidationLayersUnavailable)
    ensures (!useValidation || ValidationLayersSupported(hostLayers)) && platform.PlatformUnsupported? ==>
      r == Failure(VulkanUnsupported(platform.errorCode, platform.message))
    ensures (!useValidation || ValidationLayersSupported(hostLayers)) && platform.PlatformSupported? ==>
      && (!surfaceCreated ==> r == Failure(SurfaceCreationFailed))
      && (surfaceCreated && devices == [] ==> r == Failure(NoPhysicalDevices))
      && (surfaceCreated && devices != [] && (forall i :: 0 <= i < |devices| ==> !Suitable(devices[i])) ==>
            r == Failure(NoSuitablePhysicalDevice))
      && (surfaceCreated && (exists i :: 0 <= i < |devices| && Suitable(devices[i])) ==> r.Success?)
    ensures r.Failure? ==> r.error != MissingQueueFamily
    ensures r.Success? ==> FirstSuitable(devices, r.value.device.deviceIndex) && r.value.device.indices.IsComplete()
    ensures r.Success? ==>
      var s := r.value;
      var device := devices[s.device.deviceIndex];
      && s.device.indices == QueueFamiliesOf(device.queueFamilies)
      && OneRequestPerFamily(s.device.queueInfos, s.device.indices.graphicsFamily.value, s.device.indices.presentFamily.value)
      && s.instanceLayers == (if useValidation then VALIDATION_LAYERS else [])
      && GetRequiredExtensions(platform, useValidation) == Success(s.instanceExtensions)
      && s.swapchain.presentMode == ChoosePresentMode(device.support.presentModes)
      && s.swapchain.imageExtent == ChooseSwapExtent(device.support.capabilities, window)
      && s.swapchain.minImageCount == RequestedImageCount(device.support.capabilities)
      && SurfaceFormat(s.swapchain.imageFormat, s.swapchain.imageColorSpace) in device.support.formats
      && (PREFERRED_SURFACE_FORMAT in device.support.formats ==>
            SurfaceFormat(s.swapchain.imageFormat, s.swapchain.imageColorSpace) == PREFERRED_SURFACE_FORMAT)
      && (PREFERRED_SURFACE_FORMAT !in device.support.formats ==>
            SurfaceFormat(s.swapchain.imageFormat, s.swapchain.imageColorSpace) == device.support.formats[0])
      && s.device.enabledExtensions == REQUIRED_DEVICE_EXTENSIONS
      && s.device.enabledLayers == (if useValidation then VALIDATION_LAYERS else [])
      && s.swapchain.imageArrayLayers == 1
      && s.swapchain.clipped
      && s.swapchain.sharing == ChooseImageSharing(
           s.device.indices.graphicsFamily.value, s.device.indices.presentFamily.value)
  {
    if useValidation {
      var supported, _ := CheckValidationLayerSupport(hostLayers);
      if !supported {
        return Failure(ValidationLayersUnavailable);
      }
    }
    var extensions := GetRequiredExtensions(platform, useValidation);
    if extensions.Failure? {
      return Failure(extensions.error);
    }
    if !surfaceCreated {
      return Failure(SurfaceCreationFailed);
    }
    var setup := CreateDevice(devices, useValidation);
    if setup.Failure? {
      return Failure(setup.error);
    }
    var device := devices[setup.value.deviceIndex];
    var swapchain := CreateSwapChain(device, window);
    if swapchain.Failure? {
      assert false;
    }
    var layers := if useValidation then VALIDATION_LAYERS else [];
    r := Success(Session(extensions.value, layers, setup.value, swapchain.value));
  }

  /** One device whose only family does graphics and presents, the swapchain
      extension, one BGRA sRGB format, Fifo only, and 1 to 2 images over a fixed
      800x600 extent: the chain is exclusive, Fifo, 800x600 with 2 images. */
  method SingleDeviceScenario() returns (r: Result<Session, InitError>)
    ensures r.Success?
    ensures r.value.device.deviceIndex == 0
    ensures r.value.device.indices == QueueFamilyIndices(Some(0), Some(0))
    ensures |r.value.device.queueInfos| == 1
    ensures r.value.swapchain.imageFormat == FORMAT_B8G8R8A8_SRGB
    ensures r.value.swapchain.imageColorSpace == COLOR_SPACE_SRGB_NONLINEAR
    ensures r.value.swapchain.presentMode == PRESENT_MODE_FIFO
    ensures r.value.swapchain.imageExtent == Extent2D(800, 600)
    ensures r.value.swapchain.minImageCount == 2
    ensures r.value.swapchain.sharing == ImageSharing(Exclusive, [])
  {
    var extent := Extent2D(800, 600);
    var caps := SurfaceCapabilities(1, 2, extent, extent, extent);
    var support := SwapChainSupport(caps, [PREFERRED_SURFACE_FORMAT], [PRESENT_MODE_FIFO]);
    var device := PhysicalDevice([QueueFamily(QUEUE_GRAPHICS_BIT, true)], [SWAPCHAIN_EXTENSION_NAME], support);
    assert QueueFamiliesOf(device.queueFamilies) == QueueFamilyIndices(Some(0), Some(0));
    var devices := [device];
    assert Suitable(devices[0]);
    r := Negotiate(false, [], PlatformSupported(["VK_KHR_surface"]), true, devices, Some(WindowSize(800, 600)));
  }
}
