/** The Vulkan objects of the converter. Handle values of destroyed objects may come back, so an
    object's identity is its handle together with the number of its creation. */
module VulkanDevice {
  datatype Kind = Image | ImageMemory | ImageView | Buffer | BufferMemory | LumaView | ChromaView | DescriptorSet

  /** Value 0 is `VK_NULL_HANDLE`. */
  datatype Handle = Handle(kind: Kind, value: nat)

  class Vulkan {
    var live: set<Handle>
    /** The creation number of every live object, and how many objects were ever created. */
    ghost var born: map<Handle, nat>
    ghost var created: nat
    /** For a descriptor set, the creation number of the view last written to binding 0. */
    ghost var bound: map<nat, nat>

    constructor ()
      ensures live == {} && born == map[] && created == 0 && bound == map[]
    {
      live, born, created, bound := {}, map[], 0, map[];
    }

    /** A new object under a handle that no live object has, possibly one used before. */
    method Create(kind: Kind) returns (value: nat)
      modifies this`live, this`born, this`created
      ensures value == 0 ==> live == old(live) && born == old(born) && created == old(created)
      ensures value != 0 ==>
        && Handle(kind, value) !in old(live) && live == old(live) + {Handle(kind, value)}
        && born == old(born)[Handle(kind, value) := old(created)] && created == old(created) + 1
    {
      value := *;
      if value != 0 && Handle(kind, value) !in live {
        live := live + {Handle(kind, value)};
        born := born[Handle(kind, value) := created];
        created := created + 1;
      } else {
        value := 0;
      }
    }

    /** Destroying nothing is allowed; destroying an object twice is not. */
    method Destroy(kind: Kind, value: nat)
      requires value != 0 ==> Handle(kind, value) in live
      modifies this`live
      ensures live == old(live) - if value != 0 then {Handle(kind, value)} else {}
    {
      if value != 0 {
        live := live - {Handle(kind, value)};
      }
    }

    /** `vkUpdateDescriptorSets` for binding 0. */
    method BindSource(descriptorSet: nat, view: nat)
      requires Handle(DescriptorSet, descriptorSet) in live && Handle(ImageView, view) in live
      requires Handle(ImageView, view) in born
      modifies this`bound
      ensures bound == old(bound)[descriptorSet := born[Handle(ImageView, view)]]
    {
      bound := bound[descriptorSet := born[Handle(ImageView, view)]];
    }
  }
}
