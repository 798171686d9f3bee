/** Suitability of a physical device, first-fit selection and the
    deduplicated queue requests of `CreateDevice`. */
module DeviceSelection {
  import opened Wrappers
  import opened VulkanData
  import opened QueueFamilies
  import opened CapabilityChecks
  import opened QueueRequests

  /** A device qualifies: complete queue families, the required extensions,
      and at least one surface format and one present mode. */
  predicate Suitable(device: PhysicalDevice) {
    && QueueFamiliesOf(device.queueFamilies).IsComplete()
    && DeviceExtensionsSupported(device.extensions)
    && |device.support.formats| > 0
    && |device.support.presentModes| > 0
  }

  /** `index` is the first suitable device in enumeration order. */
  predicate FirstSuitable(devices: seq<PhysicalDevice>, index: nat) {
    && index < |devices|
    && Suitable(devices[index])
    && forall j :: 0 <= j < index ==> !Suitable(devices[j])
  }

  /** `IsSuitableDevice`: the surface support is consulted only once the
      extensions are known to be supported. */
  method IsSuitableDevice(device: PhysicalDevice) returns (suitable: bool)
    ensures suitable <==> Suitable(device)
  {
    var indices := FindQueueFamilies(device.queueFamilies);
    var supportsExtensions := CheckDeviceExtensionSupport(device.extensions);
    var swapChainAdequate := false;
    if supportsExtensions {
      swapChainAdequate := |device.support.formats| > 0 && |device.support.presentModes| > 0;
    }
    suitable := indices.IsComplete() && supportsExtensions && swapChainAdequate;
  }

  /** The device search of `CreateDevice`: an empty list and a list without a
      suitable device are distinct failures; otherwise the first suitable one. */
  method SelectPhysicalDevice(devices: seq<PhysicalDevice>) returns (r: Result<nat, InitError>)
    ensures r == Failure(NoPhysicalDevices) <==> devices == []
    ensures r == Failure(NoSuitablePhysicalDevice) <==>
      devices != [] && forall i :: 0 <= i < |devices| ==> !Suitable(devices[i])
    ensures r.Failure? ==> r.error == NoPhysicalDevices || r.error == NoSuitablePhysicalDevice
    ensures r.Success? ==> FirstSuitable(devices, r.value)
  {
    if |devices| == 0 {
      return Failure(NoPhysicalDevices);
    }
    var i := 0;
    while i < |devices|
      invariant i <= |devices|
      invariant forall j :: 0 <= j < i ==> !Suitable(devices[j])
    {
      var suitable := IsSuitableDevice(devices[i]);
      if suitable {
        return Success(i);
      }
      i := i + 1;
    }
    return Failure(NoSuitablePhysicalDevice);
  }

  /** What `CreateDevice` hands to `createDeviceUnique`, together with the
      chosen device and its indices. */
  datatype DeviceSetup = DeviceSetup(
    deviceIndex: nat,
    indices: QueueFamilyIndices,
    queueInfos: seq<QueueCreateInfo>,
    enabledExtensions: seq<string>,
    enabledLayers: seq<string>)

  /** `CreateDevice` with the driver calls replaced by the enumerated devices. */
  method CreateDevice(devices: seq<PhysicalDevice>, useValidation: bool) returns (r: Result<DeviceSetup, InitError>)
    ensures r == Failure(NoPhysicalDevices) <==> devices == []
    ensures r == Failure(NoSuitablePhysicalDevice) <==>
      devices != [] && forall i :: 0 <= i < |devices| ==> !Suitable(devices[i])
    ensures r.Failure? ==> r.error == NoPhysicalDevices || r.error == NoSuitablePhysicalDevice
    ensures r.Success? ==>
      var setup := r.value;
      && FirstSuitable(devices, setup.deviceIndex)
      && setup.indices == QueueFamiliesOf(devices[setup.deviceIndex].queueFamilies)
      && setup.indices.IsComplete()
      && var g, p := setup.indices.graphicsFamily.value, setup.indices.presentFamily.value;
      && |setup.queueInfos| == (if g == p then 1 else 2)
      && OneRequestPerFamily(setup.queueInfos, g, p)
      && setup.enabledExtensions == REQUIRED_DEVICE_EXTENSIONS
      && setup.enabledLayers == (if useValidation then VALIDATION_LAYERS else [])
  {
    var selected := SelectPhysicalDevice(devices);
    if selected.Failure? {
      return Failure(selected.error);
    }
    var index := selected.value;
    var indices := FindQueueFamilies(devices[index].queueFamilies);
    var g, p := indices.graphicsFamily.value, indices.presentFamily.value;
    var infos := QueueCreateInfosFor(g, p);
    var layers := if useValidation then VALIDATION_LAYERS else [];
    r := Success(DeviceSetup(index, indices, infos, REQUIRED_DEVICE_EXTENSIONS, layers));
  }
}
