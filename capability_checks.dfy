/** The name checks on extensions and layers, and the instance extension list. */
module CapabilityChecks {
  import opened Wrappers
  import opened VulkanData

  /** Every required device extension is among the device's extension names. */
  predicate DeviceExtensionsSupported(available: seq<string>) {
    forall name :: name in REQUIRED_DEVICE_EXTENSIONS ==> name in available
  }

  /** Every validation layer is among the host's layer names. */
  predicate ValidationLayersSupported(layers: seq<string>) {
    forall name :: name in VALIDATION_LAYERS ==> name in layers
  }

  /** Every name in `names` is in `available`. */
  predicate AllListed(names: seq<string>, available: seq<string>) {
    forall name :: name in names ==> name in available
  }

  /** `CheckDeviceExtensionSupport`: a checklist of the required names, from
      which every available name is erased; supported iff nothing is left. */
  method CheckDeviceExtensionSupport(available: seq<string>) returns (supported: bool)
    ensures supported <==> DeviceExtensionsSupported(available)
  {
    var checklist: set<string> := set name | name in REQUIRED_DEVICE_EXTENSIONS;
    var i := 0;
    while i < |available|
      invariant i <= |available|
      invariant forall name :: name in checklist <==> name in REQUIRED_DEVICE_EXTENSIONS && name !in available[..i]
    {
      checklist := checklist - {available[i]};
      i := i + 1;
    }
    assert available[..i] == available;
    supported := checklist == {};
    if !supported {
      var name :| name in checklist;
      assert name in REQUIRED_DEVICE_EXTENSIONS && name !in available;
    }
  }

  /** `CheckValidationLayerSupport`: walks the validation layers in order and
      stops at the first one the host does not list, which it reports. */
  method CheckValidationLayerSupport(layers: seq<string>) returns (supported: bool, missing: Option<string>)
    ensures supported <==> ValidationLayersSupported(layers)
    ensures supported <==> missing.None?
    ensures missing.Some? ==>
      && missing.value !in layers
      && exists i :: 0 <= i < |VALIDATION_LAYERS| && VALIDATION_LAYERS[i] == missing.value
           && AllListed(VALIDATION_LAYERS[..i], layers)
  {
    var i := 0;
    while i < |VALIDATION_LAYERS|
      invariant i <= |VALIDATION_LAYERS|
      invariant AllListed(VALIDATION_LAYERS[..i], layers)
    {
      if VALIDATION_LAYERS[i] !in layers {
        return false, Some(VALIDATION_LAYERS[i]);
      }
      assert VALIDATION_LAYERS[..i + 1] == VALIDATION_LAYERS[..i] + [VALIDATION_LAYERS[i]];
      i := i + 1;
    }
    assert VALIDATION_LAYERS[..i] == VALIDATION_LAYERS;
    return true, None;
  }

  /** `GetRequiredExtensions`: the platform's instance extensions, with the
      debug-utils extension appended when validation is on; fails when the
      platform reports no Vulkan support. */
  function GetRequiredExtensions(platform: PlatformExtensions, useValidation: bool): (r: Result<seq<string>, InitError>)
    ensures r.Failure? <==> platform.PlatformUnsupported?
    ensures r.Failure? ==> r.error == VulkanUnsupported(platform.errorCode, platform.message)
    ensures r.Success? ==>
      && |r.value| == |platform.names| + (if useValidation then 1 else 0)
      && r.value[..|platform.names|] == platform.names
      && (useValidation ==> r.value[|platform.names|] == DEBUG_UTILS_EXTENSION_NAME)
  {
    match platform
    case PlatformUnsupported(code, message) => Failure(VulkanUnsupported(code, message))
    case PlatformSupported(names) =>
      if useValidation then Success(names + [DEBUG_UTILS_EXTENSION_NAME]) else Success(names)
  }
}
